/**
  What the order of a file's logouts is worth: whatever logins stand between them, the pairing
  is a largest one exactly when the logouts of each terminal are in time order.
 */
module LogoutOrder {
  import opened Sessions

  // ---------- Counting ----------

  function Image(s: set<nat>, q: map<nat, nat>): set<nat>
    requires s <= q.Keys
  {
    set a | a in s :: q[a]
  }

  ghost predicate OneToOne(s: set<nat>, q: map<nat, nat>) {
    s <= q.Keys && forall a, b | a in s && b in s && q[a] == q[b] :: a == b
  }

  lemma {:induction false} ImageSize(s: set<nat>, q: map<nat, nat>)
    requires OneToOne(s, q)
    ensures |Image(s, q)| == |s|
  {
    if s != {} {
      var x :| x in s;
      ImageSize(s - {x}, q);
      assert Image(s, q) == Image(s - {x}, q) + {q[x]};
    }
  }

  lemma SubsetSize(a: set<nat>, b: set<nat>)
    requires a <= b
    ensures |a| <= |b|
    ensures |a| == |b| ==> a == b
  {
    assert b == a + (b - a);
    if |b - a| == 0 {
      assert b - a == {};
    }
  }

  function Interval(lo: nat, n: nat): (s: set<nat>)
    ensures forall x :: x in s <==> lo <= x < lo + n
    ensures |s| == n
  {
    if n == 0 then {} else Interval(lo, n - 1) + {lo + n - 1}
  }

  // ---------- A lost pair ----------

  /** The logout that login x is made from: that of place d first, then the others in their order. */
  function Source(d: nat, x: nat): nat {
    if x == 0 then d else if x - 1 < d then x - 1 else x
  }

  /** The login made from logout y. */
  function Made(d: nat, n: nat, y: nat): (x: nat)
    requires d < n && y < n
    ensures x < n && Source(d, x) == y
  {
    if y == d then 0 else if y < d then y + 1 else y
  }

  /** Record a is a login with the terminal and time of logout b. */
  predicate MadeFrom(rs: seq<Login>, a: nat, b: nat)
    requires a < |rs| && b < |rs|
  {
    IsLogin(rs, a) && rs[b].kind == DEAD_PROCESS && SameTty(rs, a, b) && rs[a].info.logintime == rs[b].info.logintime
  }

  /**
    Logouts, then n logins, then n logouts: the logins have the terminals and times of the
    logouts behind them, and the logout at place d among these is too early for its terminal.
   */
  ghost predicate Shuffled(rs: seq<Login>, i: nat, n: nat, d: nat) {
    && |rs| == i + 2 * n && 0 < d < n
    && (forall a: nat | a < i :: !IsLogin(rs, a))
    && (forall y: nat | y < n :: MadeFrom(rs, i + Made(d, n, y), i + n + y))
    && SameTty(rs, i + n, i + n + d) && rs[i + n].info.logintime > rs[i + n + d].info.logintime
  }

  lemma Sizes(rs: seq<Login>, i: nat, n: nat, d: nat)
    requires Shuffled(rs, i, n, d)
    ensures |rs| == i + 2 * n && 0 < d < n
  {
  }

  lemma LogoutAt(rs: seq<Login>, i: nat, n: nat, d: nat, y: nat)
    requires Shuffled(rs, i, n, d) && y < n
    ensures |rs| == i + 2 * n && !IsLogin(rs, i + n + y)
  {
    assert MadeFrom(rs, i + Made(d, n, y), i + n + y);
  }

  lemma LoginAt(rs: seq<Login>, i: nat, n: nat, d: nat, x: nat)
    requires Shuffled(rs, i, n, d) && x < n
    ensures |rs| == i + 2 * n && Source(d, x) < n && MadeFrom(rs, i + x, i + n + Source(d, x))
  {
    assert Made(d, n, Source(d, x)) == x;
  }

  lemma {:induction false} SkipLogouts(rs: seq<Login>, live: seq<nat>, k: nat)
    requires Live(rs, live) && k <= |live| && forall a :: 0 <= a < k ==> !IsLogin(rs, live[a])
    ensures Live(rs, live[k..]) && Pairing(rs, live) == Pairing(rs, live[k..])
  {
    if k == 0 {
      assert live[0..] == live;
    } else {
      LiveTail(rs, live);
      SkipLogouts(rs, live[1..], k - 1);
      assert live[1..][k - 1..] == live[k..];
    }
  }

  /** The first login takes the first logout behind the logins, which another login needs. */
  lemma FirstPair(rs: seq<Login>, i: nat, n: nat, d: nat)
    requires Shuffled(rs, i, n, d)
    ensures (i, i + n) in Pairs(rs)
  {
    hide Pairing, FirstClosing;
    SkipLogouts(rs, All(rs), i);
    HeadPair(rs, i, n, d, All(rs)[i..]);
  }

  lemma HeadPair(rs: seq<Login>, i: nat, n: nat, d: nat, live: seq<nat>)
    requires Shuffled(rs, i, n, d) && Live(rs, live) && |live| == 2 * n
    requires forall a :: 0 <= a < |live| ==> live[a] == i + a
    ensures (i, i + n) in Pairing(rs, live)
  {
    hide FirstClosing, Source, Made;
    LiveTail(rs, live);
    var rest := live[1..];
    LoginAt(rs, i, n, d, 0);
    assert Source(d, 0) == d by {
      FirstSource(d);
    }
    forall a: nat | a < n - 1 ensures !Closes(rs, i, rest[a]) {
      LoginAt(rs, i, n, d, a + 1);
    }
    assert MadeFrom(rs, i + Made(d, n, 0), i + n + 0);
    assert rest[n - 1] == i + n;
    FirstClosingAt(rs, i, rest, n - 1);
    assert Pairing(rs, live)[0] == (i, i + n);
  }

  lemma FirstSource(d: nat)
    ensures Source(d, 0) == d
  {
  }

  /** Each login can have the logout it is made from. */
  lemma EachItsOwn(rs: seq<Login>, i: nat, n: nat, d: nat) returns (m: map<nat, nat>)
    requires Shuffled(rs, i, n, d)
    ensures Assignment(rs, All(rs), m) && m.Keys == Interval(i, n)
    ensures forall a: nat | i <= a < i + n :: m[a] == i + n + Source(d, a - i)
  {
    hide Shuffled, Link, MadeFrom, Source, Interval, All;
    m := map a | a in Interval(i, n) :: i + n + Source(d, a - i);
    forall a | a in m ensures Link(rs, All(rs), a, m[a]) {
      LoginAt(rs, i, n, d, a - i);
      MadeLinks(rs, a, m[a]);
    }
    forall a, x | a in m && x in m && m[a] == m[x] ensures a == x {
      SourcesDistinct(d, a - i, x - i);
    }
  }

  lemma SourcesDistinct(d: nat, x: nat, y: nat)
    requires Source(d, x) == Source(d, y)
    ensures x == y
  {
  }

  lemma MadeLinks(rs: seq<Login>, a: nat, b: nat)
    requires a < b < |rs| && MadeFrom(rs, a, b)
    ensures Link(rs, All(rs), a, b)
  {
    assert All(rs)[a] == a && All(rs)[b] == b;
  }

  /** What an assignment makes of a login here. */
  lemma AssignedTo(rs: seq<Login>, i: nat, n: nat, d: nat, q: map<nat, nat>, a: nat)
    requires Shuffled(rs, i, n, d) && Assignment(rs, All(rs), q) && a in q
    ensures i <= a < i + n <= q[a] < i + 2 * n == |rs|
    ensures rs[a].info.logintime <= rs[q[a]].info.logintime
  {
    assert Link(rs, All(rs), a, q[a]);
    if a >= i + n {
      LogoutAt(rs, i, n, d, a - i - n);
    }
    if q[a] < i + n {
      LoginAt(rs, i, n, d, q[a] - i);
    }
  }

  lemma AssignmentOneToOne(rs: seq<Login>, q: map<nat, nat>, s: set<nat>)
    requires Assignment(rs, All(rs), q) && s <= q.Keys
    ensures OneToOne(s, q)
  {
  }

  /** The logins, and the logouts behind them, that are not before t. */
  ghost function Since(rs: seq<Login>, t: int, lo: nat, n: nat): set<nat>
    requires lo + n <= |rs|
  {
    set a | a in Interval(lo, n) && rs[a].info.logintime >= t
  }

  /** All logins cannot be served: one more would be needed of the logouts not before t. */
  lemma TooMany(rs: seq<Login>, i: nat, n: nat, d: nat, q: map<nat, nat>)
    requires Shuffled(rs, i, n, d) && Assignment(rs, All(rs), q)
    requires i in q && q[i] == i + n && q.Keys == Interval(i, n)
    ensures var t := rs[i + n].info.logintime; |Since(rs, t, i, n)| < |Since(rs, t, i + n, n)|
  {
    hide Shuffled, Source, Assignment, OneToOne, Interval, All;
    Sizes(rs, i, n, d);
    var t := rs[i + n].info.logintime;
    var logins, logouts := Since(rs, t, i, n), Since(rs, t, i + n, n);
    forall a | a in logins + {i} ensures q[a] in logouts {
      AssignedTo(rs, i, n, d, q, a);
    }
    assert i !in logins by {
      TooEarly(rs, i, n, d);
    }
    AssignmentOneToOne(rs, q, logins + {i});
    ImageSize(logins + {i}, q);
    SubsetSize(Image(logins + {i}, q), logouts);
  }

  lemma TooEarly(rs: seq<Login>, i: nat, n: nat, d: nat)
    requires Shuffled(rs, i, n, d)
    ensures rs[i].info.logintime < rs[i + n].info.logintime
  {
    LoginAt(rs, i, n, d, 0);
    FirstSource(d);
  }

  /** There are as many logins not before t as logouts. */
  lemma AsMany(rs: seq<Login>, i: nat, n: nat, d: nat, m: map<nat, nat>, t: int)
    requires Shuffled(rs, i, n, d) && Assignment(rs, All(rs), m) && m.Keys == Interval(i, n)
    requires forall a: nat | i <= a < i + n :: m[a] == i + n + Source(d, a - i)
    ensures |Since(rs, t, i + n, n)| <= |Since(rs, t, i, n)|
  {
    hide Shuffled, Source, Assignment, OneToOne, Interval, All, Made;
    Sizes(rs, i, n, d);
    var logins, logouts := Since(rs, t, i, n), Since(rs, t, i + n, n);
    forall b | b in logouts ensures b in Image(logins, m) {
      var x := Made(d, n, b - i - n);
      LoginAt(rs, i, n, d, x);
      assert m[i + x] == b;
    }
    AssignmentOneToOne(rs, m, logins);
    ImageSize(logins, m);
    SubsetSize(logouts, Image(logins, m));
  }

  /** An assignment that gives the first login the first of the logouts behind leaves a login out. */
  lemma OneLeftOut(rs: seq<Login>, i: nat, n: nat, d: nat, m: map<nat, nat>, q: map<nat, nat>)
    requires Shuffled(rs, i, n, d) && Assignment(rs, All(rs), m) && Assignment(rs, All(rs), q)
    requires m.Keys == Interval(i, n) && forall a: nat | i <= a < i + n :: m[a] == i + n + Source(d, a - i)
    requires i in q && q[i] == i + n
    ensures |q| < n
  {
    hide Shuffled, Assignment, Source, Interval, All, Since;
    forall a | a in q.Keys ensures a in Interval(i, n) {
      AssignedTo(rs, i, n, d, q, a);
    }
    SubsetSize(q.Keys, Interval(i, n));
    if |q.Keys| >= n {
      Sizes(rs, i, n, d);
      TooMany(rs, i, n, d, q);
      AsMany(rs, i, n, d, m, rs[i + n].info.logintime);
    }
  }

  /** Every login could be served, and the pairing leaves one out. */
  lemma PairLost(rs: seq<Login>, i: nat, n: nat, d: nat) returns (m: map<nat, nat>)
    requires Shuffled(rs, i, n, d)
    ensures Assignment(rs, All(rs), m) && |Pairs(rs)| < |m|
  {
    hide Pairing, Shuffled, Assignment, Apart, AsMap, Source, Interval, All;
    m := EachItsOwn(rs, i, n, d);
    FirstPair(rs, i, n, d);
    PairsDistinct(rs, All(rs));
    AsMapPairs(Pairs(rs));
    PairingIsAssignment(rs, All(rs));
    OneLeftOut(rs, i, n, d, m, AsMap(Pairs(rs)));
    assert |m.Keys| == n;
  }

  // ---------- Files ----------

  predicate AllLogouts(f: seq<Utmp>) {
    forall r | r in f :: r.ut_type == DEAD_PROCESS
  }

  /** The logout records of a file, in file order. */
  function Logouts(file: seq<Utmp>): (f: seq<Utmp>)
    ensures AllLogouts(f)
  {
    if file == [] then []
    else
      var n := |file| - 1;
      Logouts(file[..n]) + (if file[n].ut_type == DEAD_PROCESS then [file[n]] else [])
  }

  lemma LogoutsAppend(file: seq<Utmp>, r: Utmp)
    ensures Logouts(file + [r]) == if r.ut_type == DEAD_PROCESS then Logouts(file) + [r] else Logouts(file)
  {
    assert (file + [r])[..|file|] == file;
  }

  lemma {:induction false} LogoutsConcat(a: seq<Utmp>, b: seq<Utmp>)
    ensures Logouts(a + b) == Logouts(a) + Logouts(b)
    decreases |b|
  {
    hide Logouts;
    if b == [] {
      assert a + b == a;
      LoginsOnly(b);
    } else {
      var front, r := b[..|b| - 1], b[|b| - 1];
      LogoutsConcat(a, front);
      assert b == front + [r] && a + b == (a + front) + [r];
      LogoutsAppend(front, r);
      LogoutsAppend(a + front, r);
    }
  }

  lemma {:induction false} LogoutsOnly(f: seq<Utmp>)
    requires AllLogouts(f)
    ensures Logouts(f) == f
  {
    if f != [] {
      LogoutsOnly(f[..|f| - 1]);
    }
  }

  lemma {:induction false} LoginsOnly(f: seq<Utmp>)
    requires forall r | r in f :: r.ut_type == USER_PROCESS
    ensures Logouts(f) == []
  {
    if f != [] {
      LoginsOnly(f[..|f| - 1]);
    }
  }

  /** When every record is kept, the entries stand where the records do. */
  lemma {:induction false} EntriesInPlace(file: seq<Utmp>)
    requires forall r | r in file :: Kept(r)
    ensures |Entries(file)| == |file| && forall k | 0 <= k < |file| :: Entries(file)[k] == FromRecord(file[k])
  {
    hide FromRecord;
    if file != [] {
      EntriesInPlace(file[..|file| - 1]);
    }
  }

  lemma OrderedAppend(rs: seq<Login>, e: Login)
    ensures LogoutsOrdered(rs + [e]) <==>
      LogoutsOrdered(rs) &&
      (e.kind == DEAD_PROCESS ==>
        forall x | x in rs && x.kind == DEAD_PROCESS && x.info.tty == e.info.tty ::
          x.info.logintime <= e.info.logintime)
  {
    var es := rs + [e];
    assert forall i | 0 <= i < |rs| :: es[i] == rs[i];
    if LogoutsOrdered(es) {
      forall i, j | 0 <= i < j < |rs| && rs[i].kind == DEAD_PROCESS && rs[j].kind == DEAD_PROCESS && SameTty(rs, i, j)
        ensures rs[i].info.logintime <= rs[j].info.logintime
      {
        assert SameTty(es, i, j);
      }
      forall x | e.kind == DEAD_PROCESS && x in rs && x.kind == DEAD_PROCESS && x.info.tty == e.info.tty
        ensures x.info.logintime <= e.info.logintime
      {
        var i :| 0 <= i < |rs| && rs[i] == x;
        assert SameTty(es, i, |rs|);
      }
    }
  }

  /** A file and its logouts alone have the same logout entries. */
  lemma {:induction false} SameLogouts(file: seq<Utmp>, e: Login)
    requires e.kind == DEAD_PROCESS
    ensures e in Entries(file) <==> e in Entries(Logouts(file))
  {
    hide Entries, Logouts, FromRecord;
    if file == [] {
      assert Logouts([]) == [] by {
        LoginsOnly([]);
      }
    } else {
      var front, r := file[..|file| - 1], file[|file| - 1];
      SameLogouts(front, e);
      assert file == front + [r];
      EntriesAppend(front, r);
      EntriesAppend(Logouts(front), r);
      LogoutsAppend(front, r);
      KindKept(r);
    }
  }

  /** They are both in order or both not. */
  lemma {:induction false} OrderOfLogouts(file: seq<Utmp>)
    ensures LogoutsOrdered(Entries(file)) <==> LogoutsOrdered(Entries(Logouts(file)))
  {
    hide Entries, Logouts, FromRecord, LogoutsOrdered;
    if file == [] {
      LoginsOnly([]);
    } else {
      var front, r := file[..|file| - 1], file[|file| - 1];
      OrderOfLogouts(front);
      assert file == front + [r];
      EntriesAppend(front, r);
      EntriesAppend(Logouts(front), r);
      LogoutsAppend(front, r);
      KindKept(r);
      OrderedAppend(Entries(front), FromRecord(r));
      OrderedAppend(Entries(Logouts(front)), FromRecord(r));
      forall e: Login | e.kind == DEAD_PROCESS ensures e in Entries(front) <==> e in Entries(Logouts(front)) {
        SameLogouts(front, e);
      }
    }
  }

  lemma KindKept(r: Utmp)
    ensures FromRecord(r).kind == r.ut_type
  {
  }

  /** The records, with the logins that lose a pair put in front of record i. */
  function WithLogins(f: seq<Utmp>, i: nat, j: nat): seq<Utmp>
    requires i < j < |f|
  {
    f[..i] + seq(|f| - i, x requires 0 <= x < |f| - i => f[i + Source(j - i, x)].(ut_type := USER_PROCESS)) + f[i..]
  }

  lemma WithLoginsAt(f: seq<Utmp>, i: nat, j: nat, y: nat)
    requires i < j < |f| && y < |f| - i
    ensures var n, file := |f| - i, WithLogins(f, i, j);
      && |file| == i + 2 * n && file[i + n + y] == f[i + y]
      && file[i + Made(j - i, n, y)] == f[i + y].(ut_type := USER_PROCESS)
  {
    hide Source, Made;
  }

  lemma RecordMadeFrom(rs: seq<Login>, a: nat, b: nat, r: Utmp)
    requires a < |rs| && b < |rs| && r.ut_type == DEAD_PROCESS
    requires rs[b] == FromRecord(r) && rs[a] == FromRecord(r.(ut_type := USER_PROCESS))
    ensures MadeFrom(rs, a, b)
  {
  }

  lemma WithLoginsKept(f: seq<Utmp>, i: nat, j: nat)
    requires AllLogouts(f) && i < j < |f|
    ensures forall r | r in WithLogins(f, i, j) :: Kept(r)
  {
    hide Source;
  }

  lemma WithLoginsShuffled(f: seq<Utmp>, i: nat, j: nat)
    requires AllLogouts(f) && i < j < |f|
    requires FromRecord(f[i]).info.tty == FromRecord(f[j]).info.tty && Time(f[i]) > Time(f[j])
    ensures Shuffled(Entries(WithLogins(f, i, j)), i, |f| - i, j - i)
  {
    hide Source, Made, MadeFrom, WithLogins, Entries, FromRecord, Time;
    var file, n, d := WithLogins(f, i, j), |f| - i, j - i;
    TimeKept(f[i]);
    TimeKept(f[j]);
    WithLoginsKept(f, i, j);
    EntriesInPlace(file);
    var rs := Entries(file);
    WithLoginsAt(f, i, j, 0);
    WithLoginsAt(f, i, j, d);
    forall y: nat | y < n ensures MadeFrom(rs, i + Made(d, n, y), i + n + y) {
      WithLoginsAt(f, i, j, y);
      RecordMadeFrom(rs, i + Made(d, n, y), i + n + y, f[i + y]);
    }
    forall a: nat | a < i ensures !IsLogin(rs, a) {
      WithLoginsFront(f, i, j, a);
      KindKept(f[a]);
    }
  }

  lemma WithLoginsFront(f: seq<Utmp>, i: nat, j: nat, a: nat)
    requires a < i < j < |f|
    ensures |WithLogins(f, i, j)| > a && WithLogins(f, i, j)[a] == f[a]
  {
  }

  /**
    Any two logouts of a terminal out of time order cost a pair: with suitable logins in front of
    the first, fewer are paired than could be.
   */
  lemma OrderIsNeeded(f: seq<Utmp>, i: nat, j: nat) returns (file: seq<Utmp>, m: map<nat, nat>)
    requires AllLogouts(f) && i < j < |f|
    requires FromRecord(f[i]).info.tty == FromRecord(f[j]).info.tty && Time(f[i]) > Time(f[j])
    ensures Logouts(file) == f
    ensures Assignment(Entries(file), All(Entries(file)), m) && |Pairs(Entries(file))| < |m|
  {
    hide Entries, Pairs, Assignment, Logouts, FromRecord;
    file := WithLogins(f, i, j);
    WithLoginsShuffled(f, i, j);
    m := PairLost(Entries(file), i, |f| - i, j - i);
    var n := |f| - i;
    var logins := file[i..i + n];
    assert file == f[..i] + (logins + f[i..]);
    LogoutsConcat(f[..i], logins + f[i..]);
    LogoutsConcat(logins, f[i..]);
    LogoutsOnly(f[..i]);
    LoginsOnly(logins);
    LogoutsOnly(f[i..]);
  }

  /** In every file with these logouts the pairing is a largest one. */
  ghost predicate AlwaysLargest(f: seq<Utmp>) {
    forall file, m | Logouts(file) == f && Assignment(Entries(file), All(Entries(file)), m) ::
      |m| <= |Pairs(Entries(file))|
  }

  /** That is so exactly when each terminal's logouts are in time order. */
  lemma OrderIsExact(f: seq<Utmp>)
    requires AllLogouts(f)
    ensures AlwaysLargest(f) <==> LogoutsOrdered(Entries(f))
  {
    hide Entries, Pairing, Assignment, Logouts, FromRecord;
    var rs := Entries(f);
    if LogoutsOrdered(rs) {
      forall file, m | Logouts(file) == f && Assignment(Entries(file), All(Entries(file)), m)
        ensures |m| <= |Pairs(Entries(file))|
      {
        OrderOfLogouts(file);
        PairingIsLargest(Entries(file), All(Entries(file)), m);
      }
    } else {
      var i, j :| 0 <= i < j < |rs| && rs[i].kind == DEAD_PROCESS && rs[j].kind == DEAD_PROCESS && SameTty(rs, i, j)
        && rs[i].info.logintime > rs[j].info.logintime;
      EntriesInPlace(f);
      TimeKept(f[i]);
      TimeKept(f[j]);
      var file, m := OrderIsNeeded(f, i, j);
      assert !AlwaysLargest(f);
    }
  }

  lemma TimeKept(r: Utmp)
    ensures FromRecord(r).info.logintime == Time(r)
  {
  }
}
