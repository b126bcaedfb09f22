/**
  general_get_field: cuts a line in its own buffer, writing NULs over the keys, and leaves in
  `field` the places where the fields start.
 */
module FieldsInPlace {
  import opened LineFields

  // ---------- What the loop cuts ----------

  /** The first place at or after `from` that is not blank, or the length. */
  function NonBlank(s: string, from: nat): (n: nat)
    requires from <= |s|
    ensures from <= n <= |s|
    ensures n < |s| ==> !IsBlank(s[n])
    ensures forall i :: from <= i < n ==> IsBlank(s[i])
    decreases |s| - from
  {
    if from == |s| || !IsBlank(s[from]) then from else NonBlank(s, from + 1)
  }

  /**
    The cuts from a field's start on; keys are looked for from `from`. After a key the blanks
    are skipped, and the character that starts the next field is not compared with the key.
   */
  function Cuts(s: string, key: char, start: nat, from: nat): (fs: seq<string>)
    requires start <= from <= |s|
    decreases |s| - from
  {
    var k := KeyFrom(s, key, from);
    if k == |s| then [s[start..]]
    else
      var n := NonBlank(s, k + 1);
      [s[start..k]] + (if n == |s| then [] else Cuts(s, key, n, n + 1))
  }

  /** There is something after every key but blanks. */
  ghost predicate Followed(s: string, key: char) {
    forall i :: 0 <= i < |s| && s[i] == key ==> NonBlank(s, i + 1) < |s|
  }

  /**
    The cutting loop ends on the line: behind every key it looks at there is something but
    blanks. Behind a key with only blanks it would step over the terminator.
   */
  predicate Ends(s: string, key: char, from: nat)
    requires from <= |s|
    decreases |s| - from
  {
    var k := KeyFrom(s, key, from);
    k < |s| ==> NonBlank(s, k + 1) < |s| && Ends(s, key, NonBlank(s, k + 1) + 1)
  }

  /** From `at` on, no key is followed, blanks aside, by another key. */
  ghost predicate SpacedFrom(s: string, key: char, at: nat) {
    forall i :: at <= i < |s| && s[i] == key ==> NonBlank(s, i + 1) == |s| || s[NonBlank(s, i + 1)] != key
  }

  /** The text at `start` is a field's, and no two keys have nothing between them. */
  ghost predicate Tidy(s: string, key: char, start: nat) {
    start < |s| && !IsBlank(s[start]) && s[start] != key && SpacedFrom(s, key, start)
  }

  // ---------- When the two splitters agree ----------

  lemma {:induction false} SkipBlanks(s: string, key: char, from: nat)
    requires from <= |s|
    ensures Fields(s[from..], key) == Fields(s[NonBlank(s, from)..], key)
    decreases |s| - from
  {
    hide Fields;
    if from < |s| && IsBlank(s[from]) {
      SkipAt(s, from, key);
      SkipBlanks(s, key, from + 1);
    }
  }

  /** Inside the blanks after a key the next nonblank place is the same. */
  lemma NonBlankSame(s: string, from: nat, i: nat)
    requires from <= |s| && from <= i <= NonBlank(s, from)
    ensures NonBlank(s, i) == NonBlank(s, from)
  {
    hide NonBlank;
  }

  /** Spacing splits at a key: the place after it, and the rest from there. */
  lemma SpacedSplit(s: string, key: char, start: nat, k: nat)
    requires start <= k < |s| && s[k] == key && NonBlank(s, k + 1) < |s|
    requires forall i :: start <= i < k ==> s[i] != key
    ensures var n := NonBlank(s, k + 1);
      SpacedFrom(s, key, start) <==> s[n] != key && SpacedFrom(s, key, n)
  {
    hide NonBlank;
    var n := NonBlank(s, k + 1);
    forall j | k + 1 <= j <= n ensures NonBlank(s, j) == n {
      NonBlankSame(s, k + 1, j);
    }
  }

  lemma {:induction false} FollowedEnds(s: string, key: char, from: nat)
    requires Followed(s, key) && from <= |s|
    ensures Ends(s, key, from)
    decreases |s| - from
  {
    hide KeyFrom, NonBlank;
    var k := KeyFrom(s, key, from);
    if k < |s| {
      FollowedEnds(s, key, NonBlank(s, k + 1) + 1);
    }
  }

  /** Where the loop does not end, it comes to a key with only blanks behind it, and steps over the terminator. */
  lemma {:induction false} StepsOver(s: string, key: char, from: nat) returns (p: nat)
    requires from <= |s| && !Ends(s, key, from)
    ensures from <= p < |s| && s[p] == key && NonBlank(s, p + 1) == |s|
    decreases |s| - from
  {
    hide KeyFrom, NonBlank;
    p := KeyFrom(s, key, from);
    if NonBlank(s, p + 1) < |s| {
      p := StepsOver(s, key, NonBlank(s, p + 1) + 1);
    }
  }

  /** What the loop's ending says at its next key. */
  lemma EndsAt(s: string, key: char, from: nat, k: nat)
    requires from <= k < |s| && s[k] == key && (forall i :: from <= i < k ==> s[i] != key)
    requires Ends(s, key, from)
    ensures NonBlank(s, k + 1) < |s| && Ends(s, key, NonBlank(s, k + 1) + 1)
  {
    hide KeyFrom, NonBlank;
    KeyUnique(s, key, from, k);
  }

  lemma CutsHead(s: string, key: char, start: nat, from: nat, k: nat)
    requires start <= from <= k <= |s| && (k < |s| ==> s[k] == key)
    requires forall i :: from <= i < k ==> s[i] != key
    ensures k == |s| ==> Cuts(s, key, start, from) == [s[start..]]
    ensures k < |s| && NonBlank(s, k + 1) == |s| ==> Cuts(s, key, start, from) == [s[start..k]]
    ensures k < |s| && NonBlank(s, k + 1) < |s| ==>
      Cuts(s, key, start, from) == [s[start..k]] + Cuts(s, key, NonBlank(s, k + 1), NonBlank(s, k + 1) + 1)
  {
    hide KeyFrom, NonBlank;
    KeyUnique(s, key, from, k);
  }

  /** A first cut that is blank in front, or holds the key, or is empty, is not a field. */
  lemma UncleanCut(s: string, key: char, start: nat, from: nat)
    requires start < |s| && start <= from <= |s|
    requires IsBlank(s[start]) || s[start] == key
    requires from <= start + 1
    ensures Cuts(s, key, start, from) != Fields(s[start..], key)
  {
    hide Fields, KeyFrom, NonBlank;
    FieldsAreClean(s[start..], key);
    var k := KeyFrom(s, key, from);
    CutsHead(s, key, start, from, k);
    var c := s[start..k];
    assert s[start..|s|] == s[start..];
    assert c == Cuts(s, key, start, from)[0];
    assert !Clean(c, key) by {
      if c != "" {
        assert c[0] == s[start];
      }
    }
  }

  lemma {:induction false} CutsAgree(s: string, key: char, start: nat, from: nat)
    requires start < |s| && !IsBlank(s[start]) && s[start] != key && start <= from <= start + 1
    requires Ends(s, key, from)
    ensures Cuts(s, key, start, from) == Fields(s[start..], key) <==> SpacedFrom(s, key, start)
    decreases |s| - start
  {
    hide Fields, Cuts, KeyFrom, NonBlank, SpacedFrom, Ends;
    var k := KeyFrom(s, key, from);
    if k == |s| {
      LastCut(s, key, start, from);
      SpacedEnd(s, key, start);
    } else {
      EndsAt(s, key, from, k);
      var n := NonBlank(s, k + 1);
      CutsStep(s, key, start, from, k);
      SpacedSplit(s, key, start, k);
      if s[n] == key {
        UncleanCut(s, key, n, n + 1);
      } else {
        CutsAgree(s, key, n, n + 1);
      }
    }
  }

  /** Without a key left, the one cut is the one field. */
  lemma LastCut(s: string, key: char, start: nat, from: nat)
    requires start < |s| && !IsBlank(s[start]) && s[start] != key && start <= from <= start + 1
    requires forall i :: from <= i < |s| ==> s[i] != key
    ensures Cuts(s, key, start, from) == Fields(s[start..], key)
  {
    hide Fields, Cuts;
    CutsHead(s, key, start, from, |s|);
    FieldAt(s, start, |s|, key);
    FieldsOfNothing(key);
    assert s[start..|s|] == s[start..] && s[|s|..] == "";
  }

  /** At a key, cuts and fields agree when they agree behind it. */
  lemma CutsStep(s: string, key: char, start: nat, from: nat, k: nat)
    requires start < |s| && !IsBlank(s[start]) && s[start] != key && start <= from <= start + 1
    requires from <= k < |s| && s[k] == key && (forall i :: from <= i < k ==> s[i] != key)
    requires NonBlank(s, k + 1) < |s|
    ensures var n := NonBlank(s, k + 1);
      Cuts(s, key, start, from) == Fields(s[start..], key) <==> Cuts(s, key, n, n + 1) == Fields(s[n..], key)
  {
    hide Fields, Cuts, NonBlank;
    var n := NonBlank(s, k + 1);
    CutsHead(s, key, start, from, k);
    FieldAt(s, start, k, key);
    SkipAt(s, k, key);
    SkipBlanks(s, key, k + 1);
    SameTail(s[start..k], Cuts(s, key, n, n + 1), Fields(s[n..], key));
  }

  lemma SameTail(f: string, x: seq<string>, y: seq<string>)
    ensures [f] + x == [f] + y <==> x == y
  {
    if [f] + x == [f] + y {
      assert x == ([f] + x)[1..] && y == ([f] + y)[1..];
    }
  }

  lemma SpacedEnd(s: string, key: char, start: nat)
    requires forall i :: start <= i < |s| ==> s[i] != key
    ensures SpacedFrom(s, key, start)
  {
  }

  /** After its leading spaces a text is cut into its fields exactly when it is tidy. */
  lemma TextAgrees(text: string, key: char, start: nat)
    requires start < |text| && (forall i :: 0 <= i < start ==> text[i] == ' ') && Ends(text, key, start)
    ensures Cuts(text, key, start, start) == Fields(text, key) <==> Tidy(text, key, start)
  {
    hide Fields, Ends, SpacedFrom, Cuts, NonBlank;
    assert text[0..] == text;
    SkipTo(text, key, 0, start);
    if IsBlank(text[start]) || text[start] == key {
      UncleanCut(text, key, start, start);
    } else {
      CutsAgree(text, key, start, start);
    }
  }

  lemma {:induction false} SkipTo(line: string, key: char, from: nat, start: nat)
    requires from <= start <= |line| && forall i :: from <= i < start ==> line[i] == ' '
    ensures Fields(line[from..], key) == Fields(line[start..], key)
    decreases start - from
  {
    hide Fields;
    if from < start {
      SkipAt(line, from, key);
      SkipTo(line, key, from + 1, start);
    }
  }

  // ---------- The two splitters on one line ----------

  /** The number of leading spaces. */
  function Lead(s: string): (k: nat)
    ensures k <= |s| && (forall i :: 0 <= i < k ==> s[i] == ' ') && (k < |s| ==> s[k] != ' ')
  {
    if s == "" || s[0] != ' ' then 0 else 1 + Lead(s[1..])
  }

  /**
    The text that is cut. The trailing newline is looked for at the line's length counted from
    the first character that is not a space, so it is dropped only when no space leads.
   */
  function TextOf(s: string): string {
    if Lead(s) == 0 then DropNewline(s) else s
  }

  /** A text whose cuts are all clean is tidy, and does not end in the key. */
  lemma {:induction false} CleanCuts(s: string, key: char, start: nat, from: nat)
    requires start < |s| && start <= from <= start + 1 && Ends(s, key, from)
    requires forall f | f in Cuts(s, key, start, from) :: Clean(f, key)
    ensures Tidy(s, key, start) && s[|s| - 1] != key
    decreases |s| - start
  {
    hide Cuts, KeyFrom, NonBlank, Ends, SpacedFrom;
    var k := KeyFrom(s, key, from);
    CutsHead(s, key, start, from, k);
    assert s[start..|s|] == s[start..];
    if k < |s| {
      EndsAt(s, key, from, k);
    }
    var c := Cuts(s, key, start, from)[0];
    assert c == s[start..k] && Clean(c, key);
    assert c[0] == s[start];
    if k == |s| {
      SpacedEnd(s, key, start);
      assert c[|c| - 1] == s[|s| - 1];
    } else {
      var n := NonBlank(s, k + 1);
      CleanCuts(s, key, n, n + 1);
      SpacedSplit(s, key, start, k);
    }
  }

  lemma {:induction false} StripGrows(s: string, c: char)
    requires !IsBlank(c)
    ensures StripLeft(s + [c]) == StripLeft(s) + [c]
  {
    if s != "" && IsBlank(s[0]) {
      assert (s + [c])[1..] == s[1..] + [c];
      StripGrows(s[1..], c);
    }
  }

  /** One more character at the end, neither blank nor key, changes the fields. */
  lemma {:induction false} FieldsGrow(s: string, c: char, key: char)
    requires !IsBlank(c) && c != key
    ensures Fields(s + [c], key) != Fields(s, key)
    decreases |s|
  {
    hide Fields, KeyFrom, StripLeft;
    var t, k := s + [c], KeyFrom(s, key, 0);
    if k < |s| {
      FieldsCut(s, key, k);
      FieldsCut(t, key, k);
      assert t[..k] == s[..k] && t[k + 1..] == s[k + 1..] + [c];
      FieldsGrow(s[k + 1..], c, key);
      SameRest(Piece(s[..k]), Fields(t[k + 1..], key), Fields(s[k + 1..], key));
    } else {
      FieldsCut(s, key, |s|);
      FieldsCut(t, key, |t|);
      StripGrows(s, c);
      assert |StripLeft(t)| == |StripLeft(s)| + 1;
    }
  }

  lemma SameRest(front: seq<string>, x: seq<string>, y: seq<string>)
    ensures front + x == front + y <==> x == y
  {
    if front + x == front + y {
      assert x == (front + x)[|front|..] && y == (front + y)[|front|..];
    }
  }

  /** A line that keeps its newline in the text is never cut into its fields. */
  lemma NewlineKept(s: string, key: char)
    requires 0 < Lead(s) < |s| && EndsInNewline(s) && Ends(s, key, Lead(s))
    ensures Cuts(s, key, Lead(s), Lead(s)) != Fields(DropNewline(s), key)
  {
    hide Fields, Cuts, Ends, Lead, SpacedFrom;
    var lead := Lead(s);
    if Cuts(s, key, lead, lead) == Fields(DropNewline(s), key) {
      FieldsAreClean(DropNewline(s), key);
      CleanCuts(s, key, lead, lead);
      TextAgrees(s, key, lead);
      assert s == DropNewline(s) + ['\n'];
      FieldsGrow(DropNewline(s), '\n', key);
      assert false;
    }
  }

  /**
    The two splitters give the same fields of a line exactly when its text is tidy and it does
    not have both spaces in front and a newline at the end.
   */
  lemma SplittersAgree(s: string, key: char)
    requires Lead(s) < |TextOf(s)| && Ends(TextOf(s), key, Lead(s))
    ensures var text, lead := TextOf(s), Lead(s);
      Cuts(text, key, lead, lead) == Fields(DropNewline(s), key) <==>
      Tidy(text, key, lead) && (lead == 0 || !EndsInNewline(s))
  {
    hide Fields, Cuts, Ends, Lead, Tidy;
    if Lead(s) > 0 && EndsInNewline(s) {
      NewlineKept(s, key);
    } else {
      TextAgrees(TextOf(s), key, Lead(s));
    }
  }

  /** Spaces in front and a newline at the end: the text is tidy, and its one cut has the newline. */
  lemma LeadingSpaceKeepsNewline(f: string, key: char)
    requires Clean(f, key) && key != '\n' && !EndsInNewline(f)
    ensures var s := " " + f + "\n";
      && Lead(s) == 1 && TextOf(s) == s && Ends(s, key, 1) && Tidy(s, key, 1)
      && Cuts(s, key, 1, 1) == [f + "\n"] && Fields(DropNewline(s), key) == [f]
  {
    hide Fields, Cuts, KeyFrom, Piece;
    var s := " " + f + "\n";
    assert s[0] == ' ' && s[1] == f[0] && s[1..] == f + "\n";
    KeyUnique(s, key, 1, |s|);
    CutsHead(s, key, 1, 1, |s|);
    var d := DropNewline(s);
    assert d == " " + f && d[1..] == f;
    SkipOne(d, key);
    FieldsCut(f, key, |f|);
    PieceWhole(f);
  }

  /** With a space for key, every line that neither starts nor ends with a blank is cut into its fields. */
  lemma SpaceKeyAgrees(line: string)
    requires line != "" && !IsBlank(line[0]) && !IsBlank(line[|line| - 1])
    ensures Ends(line, ' ', 0) && Cuts(line, ' ', 0, 0) == Fields(line, ' ')
  {
    hide Fields, Cuts, NonBlank, Ends;
    FollowedEnds(line, ' ', 0);
    TextAgrees(line, ' ', 0);
  }

  /** A key in front of the text is a cut of its own, and empty. */
  lemma KeyInFront(g: string, key: char)
    requires Clean(g, key)
    ensures Cuts([key] + g, key, 0, 0) == ["", g]
  {
    hide Cuts, KeyFrom;
    var line := [key] + g;
    CutsHead(line, key, 0, 0, 0);
    assert line[1] == g[0] && line[0..0] == "" && line[1..] == g;
    assert NonBlank(line, 1) == 1;
    CutsHead(line, key, 1, 2, |line|);
  }

  /** A tab in front of the text is kept. */
  lemma TabInFront(f: string, key: char)
    requires Clean(f, key) && key != '\t'
    ensures Lead("\t" + f) == 0 && Cuts("\t" + f, key, 0, 0) == ["\t" + f]
  {
    hide Cuts, KeyFrom;
    var line := "\t" + f;
    assert line[0] == '\t';
    CutsHead(line, key, 0, 0, |line|);
    assert line[0..] == line;
  }

  /** Two keys in a row: the second stays in the text of the field after it. */
  lemma DoubledKey(f: string, g: string, key: char)
    requires Clean(f, key) && Clean(g, key) && !IsBlank(key)
    ensures var line := f + [key] + ([key] + g);
      !Tidy(line, key, 0) && Cuts(line, key, 0, 0) == [f, [key] + g] && Fields(line, key) == [f, g]
  {
    hide Fields, Cuts, KeyFrom, Piece;
    var line, k := f + [key] + ([key] + g), |f|;
    CutsHead(line, key, 0, 0, k);
    assert line[k + 1] == key && line[0..k] == f;
    CutsHead(line, key, k + 1, k + 2, |line|);
    assert line[k + 1..] == [key] + g;
    assert NonBlank(line, k + 1) == k + 1 && line[k] == key;
    FieldInFront(f, [key] + g, key);
    SkipOne([key] + g, key);
    FieldsCut(g, key, |g|);
    PieceWhole(g);
    assert ([key] + g)[1..] == g;
  }

  // ---------- The splitter ----------

  /** The C string t stands in the buffer at place p. */
  ghost predicate Holds(b: seq<char>, p: nat, t: string) {
    p + |t| < |b| && b[p..p + |t|] == t && b[p + |t|] == '\0' && '\0' !in t
  }

  /** The fields done so far stand where `field` says, and end before `limit`. */
  ghost predicate Filled(b: seq<char>, field: seq<nat>, done: seq<string>, limit: nat) {
    |done| <= |field| && forall k :: 0 <= k < |done| ==> Holds(b, field[k], done[k]) && field[k] + |done[k]| < limit
  }

  /** From `at` on the buffer still holds the line and its terminator. */
  ghost predicate Untouched(b: seq<char>, line: string, at: nat) {
    at <= |line| < |b| && b[at..|line|] == line[at..] && b[|line|] == '\0' && '\0' !in line
  }

  lemma UntouchedAt(b: seq<char>, line: string, at: nat, p: nat)
    requires Untouched(b, line, at) && at <= p <= |line|
    ensures b[p] == (if p < |line| then line[p] else '\0')
    ensures p < |line| ==> line[p] != '\0'
    ensures Untouched(b, line, p)
  {
    assert p < |line| ==> b[at..|line|][p - at] == b[p];
    assert b[p..|line|] == b[at..|line|][p - at..];
  }

  /** Writing a NUL over the key at p, or finding the terminator there, ends the field that starts at `start`. */
  lemma CloseField(b: seq<char>, field: seq<nat>, done: seq<string>, line: string, start: nat, p: nat)
    requires Filled(b, field, done, start + 1) && Untouched(b, line, start) && start <= p <= |line|
    requires |done| < |field| && field[|done|] == start
    ensures Filled(b[p := '\0'], field, done + [line[start..p]], p + 1)
    ensures p < |line| ==> Untouched(b[p := '\0'], line, p + 1)
  {
    hide Holds;
    var c, more := b[p := '\0'], done + [line[start..p]];
    forall k | 0 <= k < |more| ensures Holds(c, field[k], more[k]) && field[k] + |more[k]| < p + 1 {
      if k < |done| {
        HoldsKept(b, field[k], done[k], p);
      } else {
        HoldsNew(b, line, start, p);
      }
    }
    if p < |line| {
      assert c[p + 1..|line|] == b[start..|line|][p + 1 - start..];
    }
  }

  /** A NUL written at or behind a string's end leaves the string. */
  lemma HoldsKept(b: seq<char>, at: nat, t: string, p: nat)
    requires Holds(b, at, t) && at + |t| <= p < |b|
    ensures Holds(b[p := '\0'], at, t)
  {
    assert b[p := '\0'][at..at + |t|] == b[at..at + |t|];
  }

  lemma HoldsNew(b: seq<char>, line: string, start: nat, p: nat)
    requires Untouched(b, line, start) && start <= p <= |line|
    ensures p < |b| && Holds(b[p := '\0'], start, line[start..p])
  {
    assert b[p := '\0'][start..p] == b[start..|line|][..p - start];
    assert line[start..p] == line[start..][..p - start];
  }

  /** A later place in `field` disturbs no finished field. */
  lemma NextPlace(b: seq<char>, field: seq<nat>, done: seq<string>, limit: nat, place: nat)
    requires Filled(b, field, done, limit) && |done| < |field| && limit <= place
    ensures Filled(b, field[|done| := place], done, place + 1)
  {
  }

  method StrLen(b: array<char>, from: nat, ghost n: nat) returns (len: nat)
    requires from + n < b.Length && b[from + n] == '\0' && forall i :: from <= i < from + n ==> b[i] != '\0'
    ensures len == n
  {
    len := 0;
    while b[from + len] != '\0'
      invariant len <= n
      decreases n - len
    {
      len := len + 1;
    }
  }

  /** The inner loop: pass the blanks after a key. */
  method PassBlanks(tmpbuff: array<char>, at: nat, ghost line: string) returns (p: nat)
    requires Untouched(tmpbuff[..], line, at)
    ensures p == NonBlank(line, at) && p < tmpbuff.Length
    ensures Untouched(tmpbuff[..], line, p)
  {
    hide NonBlank, Untouched;
    p := at;
    LineFits(tmpbuff[..], line, at);
    UntouchedAt(tmpbuff[..], line, at, at);
    while IsBlank(tmpbuff[p])
      invariant at <= p <= NonBlank(line, at) <= |line| && Untouched(tmpbuff[..], line, p)
      invariant p < |line| ==> tmpbuff[p] == line[p]
      invariant p == |line| ==> tmpbuff[p] == '\0'
      decreases |line| - p
    {
      UntouchedAt(tmpbuff[..], line, p, p + 1);
      p := p + 1;
    }
  }

  lemma LineFits(b: seq<char>, line: string, at: nat)
    requires Untouched(b, line, at)
    ensures at <= |line| < |b|
  {
  }

  /**
    Between two turns of the cutting loop: `done` fields are finished, the current one starts
    at `start`, and no key stands between `from` and p.
   */
  ghost predicate Cutting(b: seq<char>, field: seq<nat>, line: string, key: char, fs: seq<string>,
                          done: seq<string>, start: nat, from: nat, p: nat)
  {
    && start <= from <= p <= |line| && start < |line|
    && (forall i :: from <= i < p ==> line[i] != key)
    && |done| < |field| && field[|done|] == start
    && fs == done + Cuts(line, key, start, from)
    && Filled(b, field, done, start + 1) && Untouched(b, line, start)
  }

  lemma CuttingStarts(b: seq<char>, field: seq<nat>, line: string, key: char, start: nat)
    requires start < |line| && Untouched(b, line, start) && field != [] && field[0] == start
    ensures Cutting(b, field, line, key, Cuts(line, key, start, start), [], start, start, start)
  {
  }

  lemma CuttingAt(b: seq<char>, field: seq<nat>, line: string, key: char, fs: seq<string>,
                  done: seq<string>, start: nat, from: nat, p: nat)
    requires Cutting(b, field, line, key, fs, done, start, from, p)
    ensures p <= |line| < |b| && b[p] == (if p < |line| then line[p] else '\0')
    ensures p < |line| ==> line[p] != '\0'
    ensures p < |line| && line[p] != key ==> Cutting(b, field, line, key, fs, done, start, from, p + 1)
  {
    hide Untouched, Filled, Cuts;
    LineFits(b, line, start);
    UntouchedAt(b, line, start, p);
  }

  /** More fields are wanted and the loop is safe: a field starts behind the key at p. */
  lemma FieldBehind(b: seq<char>, field: seq<nat>, line: string, key: char, fs: seq<string>,
                    done: seq<string>, start: nat, from: nat, p: nat)
    requires Cutting(b, field, line, key, fs, done, start, from, p) && p < |line| && line[p] == key
    requires Ends(line, key, from) || |done| + 1 < |fs|
    ensures NonBlank(line, p + 1) < |line|
    ensures Ends(line, key, from) ==> Ends(line, key, NonBlank(line, p + 1) + 1)
  {
    hide Untouched, Filled, KeyFrom, NonBlank, Cuts, Ends;
    CutsHead(line, key, start, from, p);
    if Ends(line, key, from) {
      EndsAt(line, key, from, p);
    }
  }

  lemma TakeOne(done: seq<string>, f: string, rest: seq<string>, fs: seq<string>)
    requires fs == done + ([f] + rest)
    ensures |done| < |fs| && fs[..|done| + 1] == done + [f] && fs == fs[..|done| + 1] + rest
  {
  }

  /** The current field ends at a key or at the end of the line. */
  lemma CuttingEnds(b: seq<char>, field: seq<nat>, line: string, key: char, fs: seq<string>,
                    done: seq<string>, start: nat, from: nat, p: nat)
    requires Cutting(b, field, line, key, fs, done, start, from, p)
    requires p < |line| ==> line[p] == key
    ensures p < |b| && |done| < |fs| && fs[..|done| + 1] == done + [line[start..p]]
    ensures Filled(b[p := '\0'], field, fs[..|done| + 1], p + 1)
    ensures p == |line| ==> |fs| == |done| + 1
    ensures p < |line| ==> Untouched(b[p := '\0'], line, p + 1)
  {
    hide Untouched, Filled, KeyFrom, NonBlank;
    LineFits(b, line, start);
    CutsHead(line, key, start, from, p);
    CloseField(b, field, done, line, start, p);
    assert line[start..|line|] == line[start..];
  }

  /** The next field starts after the blanks, its first character unchecked. */
  lemma CuttingGoesOn(b: seq<char>, field: seq<nat>, line: string, key: char, fs: seq<string>,
                      done: seq<string>, start: nat, from: nat, p: nat, n: nat)
    requires Cutting(b, field, line, key, fs, done, start, from, p) && p < |line| && line[p] == key
    requires n == NonBlank(line, p + 1) < |line| && |done| + 1 < |field|
    ensures p < |b| && |done| < |fs|
    ensures Cutting(b[p := '\0'], field[|done| + 1 := n], line, key, fs, fs[..|done| + 1], n, n + 1, n + 1)
  {
    hide Untouched, Filled, KeyFrom, NonBlank, Cuts;
    LineFits(b, line, start);
    CutsHead(line, key, start, from, p);
    CuttingEnds(b, field, line, key, fs, done, start, from, p);
    NextPlace(b[p := '\0'], field, fs[..|done| + 1], p + 1, n);
    UntouchedAt(b[p := '\0'], line, p + 1, n);
    TakeOne(done, line[start..p], Cuts(line, key, n, n + 1), fs);
  }

  /**
    The cutting loop from pstr on: `field` receives the places of the cuts, at most fieldnum of
    them, each a C string of its own when the loop ends. It must not come to a key with only
    blanks behind it while fields are still wanted.
   */
  method CutLine(tmpbuff: array<char>, key: char, fieldnum: nat, field: array<nat>, at: nat, ghost line: string)
    returns (fieldindex: nat)
    requires key != '\0' && 0 < fieldnum <= field.Length
    requires Untouched(tmpbuff[..], line, at) && at < |line|
    requires Ends(line, key, at) || fieldnum <= |Cuts(line, key, at, at)|
    modifies tmpbuff, field
    ensures var fs := Cuts(line, key, at, at);
      && fieldindex == (if |fs| < fieldnum then |fs| else fieldnum)
      && Filled(tmpbuff[..], field[..], fs[..fieldindex], |line| + 1)
    ensures field[fieldindex..] == old(field[fieldindex..])
  {
    hide Filled, Untouched, Cuts, NonBlank, KeyFrom, Ends, Cutting;
    var pstr: nat := at;
    field[0] := pstr;
    fieldindex := 1;
    ghost var fs, start: nat, from: nat := Cuts(line, key, at, at), at, at;
    CuttingStarts(tmpbuff[..], field[..], line, key, at);
    CuttingAt(tmpbuff[..], field[..], line, key, fs, [], start, from, pstr);
    assert fs[..0] == [];
    while tmpbuff[pstr] != '\0'
      invariant pstr <= |line| < tmpbuff.Length
      invariant 1 <= fieldindex <= fieldnum && fieldindex - 1 <= |fs|
      invariant from <= |line| && (Ends(line, key, from) || fieldnum <= |fs|)
      invariant field[fieldindex..] == old(field[fieldindex..])
      invariant Cutting(tmpbuff[..], field[..], line, key, fs, fs[..fieldindex - 1], start, from, pstr)
      decreases |line| - pstr
    {
      ghost var b, f, done := tmpbuff[..], field[..], fs[..fieldindex - 1];
      CuttingAt(b, f, line, key, fs, done, start, from, pstr);
      if tmpbuff[pstr] == key {
        CuttingEnds(b, f, line, key, fs, done, start, from, pstr);
        tmpbuff[pstr] := '\0';
        assert tmpbuff[..] == b[pstr := '\0'];
        if fieldindex >= fieldnum {
          FilledWider(tmpbuff[..], f, fs[..fieldindex], pstr + 1, |line| + 1);
          return;
        }
        FieldBehind(b, f, line, key, fs, done, start, from, pstr);
        CuttingGoesOn(b, f, line, key, fs, done, start, from, pstr, NonBlank(line, pstr + 1));
        pstr := PassBlanks(tmpbuff, pstr + 1, line);
        field[fieldindex] := pstr;
        assert field[..] == f[fieldindex := pstr];
        fieldindex := fieldindex + 1;
        start, from := pstr, pstr + 1;
      }
      pstr := pstr + 1;
    }
    ghost var b := tmpbuff[..];
    CuttingAt(b, field[..], line, key, fs, fs[..fieldindex - 1], start, from, pstr);
    CuttingEnds(b, field[..], line, key, fs, fs[..fieldindex - 1], start, from, pstr);
    assert b[pstr := '\0'] == b;
  }

  lemma FilledWider(b: seq<char>, field: seq<nat>, done: seq<string>, limit: nat, wider: nat)
    requires Filled(b, field, done, limit) && limit <= wider
    ensures Filled(b, field, done, wider)
  {
  }

  // ---------- The whole function ----------

  /**
    general_get_field on a buffer that holds a line of n characters, with as many more places
    behind the terminator as spaces lead, less one. A line with nothing to cut is an error.
    Behind a key there must be something but blanks, unless fieldnum is reached there.
   */
  method GetField(tmpbuff: array<char>, key: char, fieldnum: int, field: array<nat>, ghost n: nat) returns (r: int)
    requires key != '\0' && fieldnum <= field.Length
    requires n < tmpbuff.Length && tmpbuff[n] == '\0' && '\0' !in tmpbuff[..n]
    requires n + Lead(tmpbuff[..n]) <= tmpbuff.Length
    requires var text, lead := TextOf(tmpbuff[..n]), Lead(tmpbuff[..n]);
      0 < fieldnum && lead < |text| ==> Ends(text, key, lead) || fieldnum <= |Cuts(text, key, lead, lead)|
    modifies tmpbuff, field
    ensures var text, lead := TextOf(old(tmpbuff[..n])), Lead(old(tmpbuff[..n]));
      && (r == if fieldnum <= 0 || lead >= |text| then -1 else 0)
      && (r == 0 ==>
        var fs := Cuts(text, key, lead, lead);
        var count := if |fs| < fieldnum then |fs| else fieldnum;
        Filled(tmpbuff[..], field[..], fs[..count], |text| + 1) && field[count..] == old(field[count..]))
      && (r != 0 ==> field[..] == old(field[..]))
  {
    hide Filled, Cuts, Ends;
    ghost var s := tmpbuff[..n];
    if fieldnum <= 0 || tmpbuff[0] == '\0' {
      assert fieldnum > 0 ==> s == "";
      return -1;
    }
    var pstr := 0;
    var buflen := StrLen(tmpbuff, 0, n);
    while tmpbuff[pstr] == ' '
      invariant pstr <= Lead(s)
      decreases Lead(s) - pstr
    {
      assert s[pstr] == tmpbuff[pstr];
      pstr := pstr + 1;
    }
    assert pstr == Lead(s);
    if tmpbuff[pstr + buflen - 1] == '\n' {
      tmpbuff[pstr + buflen - 1] := '\0';
    }
    ghost var text := TextOf(s);
    assert tmpbuff[..|text|] == text && tmpbuff[|text|] == '\0';
    buflen := StrLen(tmpbuff, pstr, |text| - pstr);
    if buflen == 0 {
      return -1;
    }
    var _ := CutLine(tmpbuff, key, fieldnum, field, pstr, text);
    r := 0;
  }

  /** On the lines where the two splitters agree, the second delivers the iterator's fields. */
  method AgreeingFields(tmpbuff: array<char>, key: char, fieldnum: nat, field: array<nat>, ghost n: nat)
    returns (r: int)
    requires key != '\0' && 0 < fieldnum <= field.Length
    requires n < tmpbuff.Length && tmpbuff[n] == '\0' && '\0' !in tmpbuff[..n]
    requires n + Lead(tmpbuff[..n]) <= tmpbuff.Length
    requires var s := tmpbuff[..n];
      && Lead(s) < |TextOf(s)| && Ends(TextOf(s), key, Lead(s))
      && Tidy(TextOf(s), key, Lead(s)) && (Lead(s) == 0 || !EndsInNewline(s))
    modifies tmpbuff, field
    ensures r == 0
    ensures var fs := Fields(DropNewline(old(tmpbuff[..n])), key);
      var count := if |fs| < fieldnum then |fs| else fieldnum;
      && (forall k :: 0 <= k < count ==>
           && field[k] + |fs[k]| < tmpbuff.Length && tmpbuff[field[k]..field[k] + |fs[k]|] == fs[k]
           && tmpbuff[field[k] + |fs[k]|] == '\0')
      && field[count..] == old(field[count..])
  {
    hide Cuts, Fields, Ends, Tidy, Lead, TextOf;
    SplittersAgree(tmpbuff[..n], key);
    r := GetField(tmpbuff, key, fieldnum, field, n);
  }

  /** So it does with a space for key on every line without blank ends. */
  method SpaceFields(tmpbuff: array<char>, fieldnum: nat, field: array<nat>, ghost n: nat) returns (r: int)
    requires 0 < fieldnum <= field.Length
    requires n < tmpbuff.Length && tmpbuff[n] == '\0' && '\0' !in tmpbuff[..n]
    requires var line := DropNewline(tmpbuff[..n]);
      line != "" && !IsBlank(line[0]) && !IsBlank(line[|line| - 1])
    modifies tmpbuff, field
    ensures r == 0
    ensures var fs := Fields(DropNewline(old(tmpbuff[..n])), ' ');
      var count := if |fs| < fieldnum then |fs| else fieldnum;
      && (forall k :: 0 <= k < count ==>
           && field[k] + |fs[k]| < tmpbuff.Length && tmpbuff[field[k]..field[k] + |fs[k]|] == fs[k]
           && tmpbuff[field[k] + |fs[k]|] == '\0')
      && field[count..] == old(field[count..])
  {
    hide Cuts, Fields, Ends, Tidy;
    var s := tmpbuff[..n];
    SpaceKeyAgrees(DropNewline(s));
    assert Lead(s) == 0 && TextOf(s) == DropNewline(s);
    SplittersAgree(s, ' ');
    r := AgreeingFields(tmpbuff, ' ', fieldnum, field, n);
  }
}
