/**
  The pairing of logins with logouts that os_info_logout_tty computes, as a function on the
  record sequence, and what that pairing promises: it is a matching, a largest one, first in
  first out on each terminal, and exact when a terminal's records alternate.
 */
module Sessions {
  const USER_PROCESS: int := 7
  const DEAD_PROCESS: int := 8
  const MAX_USER_NAME: nat := 128
  const MAX_TTY_LEN: nat := 128
  const MAX_HOST_NAME: nat := 256

  /** A wtmp record; strings are NUL-free. */
  datatype Utmp = Utmp(ut_type: int, ut_user: string, ut_host: string, ut_line: string, tv_sec: int, tv_usec: int)

  datatype LoginInfo = LoginInfo(
    pid: int, username: string, logintime: int, tty: string, hostname: string, logouttime: int)

  /** struct login_list without its links. */
  datatype Login = Login(kind: int, info: LoginInfo)

  predicate Kept(r: Utmp) {
    r.ut_type == USER_PROCESS || r.ut_type == DEAD_PROCESS
  }

  /** snprintf into a buffer of n bytes. */
  function Truncate(s: string, n: nat): (t: string)
    requires n > 0
    ensures |t| < n && t <= s
    ensures |s| < n ==> t == s
    ensures |s| >= n ==> |t| == n - 1
  {
    if |s| < n then s else s[..n - 1]
  }

  /** C division truncates toward zero. */
  function Seconds(usec: int): int {
    if usec < 0 then -(-usec / 1000000) else usec / 1000000
  }

  /** Whole seconds, the part below one dropped toward zero. */
  lemma SecondsTruncate(usec: int)
    ensures usec >= 0 ==> 1000000 * Seconds(usec) <= usec < 1000000 * Seconds(usec) + 1000000
    ensures usec < 0 ==> 1000000 * Seconds(usec) - 1000000 < usec <= 1000000 * Seconds(usec)
  {
  }

  function FromRecord(r: Utmp): Login {
    var named := r.ut_type == USER_PROCESS;
    Login(r.ut_type, LoginInfo(
      0,
      if named then Truncate(r.ut_user, MAX_USER_NAME) else "",
      Time(r),
      Truncate(r.ut_line, MAX_TTY_LEN),
      if named then Truncate(r.ut_host, MAX_HOST_NAME) else "",
      -1))
  }

  /** The records the list is built from: logins and logouts, in file order. */
  function Entries(file: seq<Utmp>): (es: seq<Login>)
    ensures forall e | e in es :: e.kind == USER_PROCESS || e.kind == DEAD_PROCESS
  {
    if file == [] then []
    else
      var n := |file| - 1;
      Entries(file[..n]) + (if Kept(file[n]) then [FromRecord(file[n])] else [])
  }

  lemma EntriesAppend(file: seq<Utmp>, r: Utmp)
    ensures Entries(file + [r]) == if Kept(r) then Entries(file) + [FromRecord(r)] else Entries(file)
  {
    hide FromRecord;
    assert (file + [r])[..|file|] == file;
  }

  /** The entries come from the records at the given places, in that order. */
  ghost predicate FromPlaces(file: seq<Utmp>, at: seq<nat>, es: seq<Login>) {
    && |at| == |es|
    && (forall k :: 0 <= k < |at| ==> at[k] < |file| && es[k] == FromRecord(file[at[k]]))
    && (forall k, l :: 0 <= k < l < |at| ==> at[k] < at[l])
  }

  /** The places are those of all the kept records. */
  ghost predicate AllKept(file: seq<Utmp>, at: seq<nat>) {
    forall a: nat :: a < |file| && (file[a].ut_type == 7 || file[a].ut_type == 8) <==> a in at
  }

  /** The entries are those of all the kept records, in file order. */
  lemma {:induction false} EntriesInFileOrder(file: seq<Utmp>) returns (at: seq<nat>)
    ensures FromPlaces(file, at, Entries(file)) && AllKept(file, at)
  {
    hide FromRecord, Kept, FromPlaces, AllKept;
    if file == [] {
      at := [];
      NoPlaces();
    } else {
      var n := |file| - 1;
      at := EntriesInFileOrder(file[..n]);
      OnePlaceMore(file, at, Entries(file[..n]));
      if Kept(file[n]) {
        at := at + [n];
      } else {
        assert Entries(file) == Entries(file[..n]);
      }
    }
  }

  lemma NoPlaces()
    ensures FromPlaces([], [], []) && AllKept([], [])
  {
  }

  lemma OnePlaceMore(file: seq<Utmp>, at: seq<nat>, es: seq<Login>)
    requires file != [] && FromPlaces(file[..|file| - 1], at, es) && AllKept(file[..|file| - 1], at)
    ensures var n := |file| - 1;
      if Kept(file[n]) then FromPlaces(file, at + [n], es + [FromRecord(file[n])]) && AllKept(file, at + [n])
      else FromPlaces(file, at, es) && AllKept(file, at)
  {
    hide FromRecord;
    assert file == file[..|file| - 1] + [file[|file| - 1]];
  }

  function Time(r: Utmp): int {
    r.tv_sec + Seconds(r.tv_usec)
  }

  /** The file is written in time order, as wtmp is. */
  ghost predicate Chronological(file: seq<Utmp>) {
    forall a, b :: 0 <= a < b < |file| ==> Time(file[a]) <= Time(file[b])
  }

  ghost predicate TimesOrdered(rs: seq<Login>) {
    forall i, j :: 0 <= i < j < |rs| ==> rs[i].info.logintime <= rs[j].info.logintime
  }

  /** Dropping the other records keeps the time order. */
  lemma {:induction false} EntriesInTimeOrder(file: seq<Utmp>)
    requires Chronological(file)
    ensures TimesOrdered(Entries(file))
    ensures forall e | e in Entries(file) :: exists r :: r in file && Time(r) == e.info.logintime
  {
    if file != [] {
      var n := |file| - 1;
      EntriesInTimeOrder(file[..n]);
      assert file == file[..n] + [file[n]];
      var es := Entries(file[..n]);
      forall i | 0 <= i < |es| ensures es[i].info.logintime <= Time(file[n]) {
        assert es[i] in es;
      }
    }
  }

  // ---------- The pairing ----------

  predicate SameTty(rs: seq<Login>, i: nat, j: nat)
    requires i < |rs| && j < |rs|
  {
    rs[i].info.tty == rs[j].info.tty
  }

  predicate IsLogin(rs: seq<Login>, i: nat)
    requires i < |rs|
  {
    rs[i].kind == USER_PROCESS
  }

  /** The test of the inner loop. */
  predicate Closes(rs: seq<Login>, i: nat, j: nat)
    requires i < |rs| && j < |rs|
  {
    rs[j].kind == DEAD_PROCESS && SameTty(rs, j, i) && rs[i].info.logintime <= rs[j].info.logintime
  }

  /** Positions still in the list, in file order. */
  predicate Live(rs: seq<Login>, live: seq<nat>) {
    (forall a :: 0 <= a < |live| ==> live[a] < |rs|) && (forall a, b :: 0 <= a < b < |live| ==> live[a] < live[b])
  }

  /** The place in `rest` of the first logout that closes i, or |rest|. */
  function FirstClosing(rs: seq<Login>, i: nat, rest: seq<nat>): (k: nat)
    requires i < |rs| && Live(rs, rest)
    ensures k <= |rest|
    ensures k < |rest| ==> Closes(rs, i, rest[k])
    ensures forall a :: 0 <= a < k ==> !Closes(rs, i, rest[a])
  {
    if rest == [] || Closes(rs, i, rest[0]) then 0 else 1 + FirstClosing(rs, i, rest[1..])
  }

  lemma FirstClosingAt(rs: seq<Login>, i: nat, rest: seq<nat>, k: nat)
    requires i < |rs| && Live(rs, rest) && k <= |rest|
    requires forall a :: 0 <= a < k ==> !Closes(rs, i, rest[a])
    requires k < |rest| ==> Closes(rs, i, rest[k])
    ensures FirstClosing(rs, i, rest) == k
  {
  }

  function Without(rs: seq<Login>, live: seq<nat>, k: nat): (rest: seq<nat>)
    requires Live(rs, live) && k < |live|
    ensures Live(rs, rest) && |rest| == |live| - 1
  {
    live[..k] + live[k + 1..]
  }

  /** Take the first record; a login is paired with the first later logout that closes it. */
  function Pairing(rs: seq<Login>, live: seq<nat>): (ps: seq<(nat, nat)>)
    requires Live(rs, live)
    ensures forall p | p in ps :: p.0 in live && p.1 in live && p.0 < p.1
    decreases |live|
  {
    if live == [] then []
    else
      var i, rest := live[0], live[1..];
      if !IsLogin(rs, i) then Pairing(rs, rest)
      else
        var k := FirstClosing(rs, i, rest);
        if k == |rest| then Pairing(rs, rest)
        else [(i, rest[k])] + Pairing(rs, Without(rs, rest, k))
  }

  function All(rs: seq<Login>): (live: seq<nat>)
    ensures Live(rs, live) && |live| == |rs|
    ensures forall i: nat :: i < |rs| ==> live[i] == i
  {
    seq(|rs|, i requires 0 <= i < |rs| => i)
  }

  /** The pairs of a whole record sequence. */
  function Pairs(rs: seq<Login>): seq<(nat, nat)> {
    Pairing(rs, All(rs))
  }

  // ---------- A matching ----------

  lemma WithoutMembers(rs: seq<Login>, live: seq<nat>, k: nat)
    requires Live(rs, live) && k < |live|
    ensures forall m :: m in Without(rs, live, k) <==> m in live && m != live[k]
  {
    var rest := Without(rs, live, k);
    forall m | m in live && m != live[k] ensures m in rest {
      var a :| 0 <= a < |live| && live[a] == m;
      if a < k {
        assert rest[a] == m;
      } else {
        assert rest[a - 1] == m;
      }
    }
  }

  lemma LiveTail(rs: seq<Login>, live: seq<nat>)
    requires Live(rs, live) && live != []
    ensures Live(rs, live[1..])
    ensures forall m :: m in live <==> m == live[0] || m in live[1..]
    ensures forall m | m in live[1..] :: live[0] < m
  {
    assert live == [live[0]] + live[1..];
  }

  /** Every pair is a login and a later logout that closes it. */
  lemma {:induction false} PairsClose(rs: seq<Login>, live: seq<nat>)
    requires Live(rs, live)
    ensures forall p | p in Pairing(rs, live) :: IsLogin(rs, p.0) && Closes(rs, p.0, p.1)
    decreases |live|
  {
    hide SameTty, Closes, IsLogin;
    if live != [] {
      var i, rest := live[0], live[1..];
      var k := if IsLogin(rs, i) then FirstClosing(rs, i, rest) else |rest|;
      if k == |rest| {
        PairsClose(rs, rest);
      } else {
        PairsClose(rs, Without(rs, rest, k));
      }
    }
  }

  ghost predicate Apart(ps: seq<(nat, nat)>) {
    forall a, b :: 0 <= a < b < |ps| ==> ps[a].0 < ps[b].0 && ps[a].1 != ps[b].1
  }

  /** Pairs come in the order of their logins, and no logout is used twice. */
  lemma {:induction false} PairsDistinct(rs: seq<Login>, live: seq<nat>)
    requires Live(rs, live)
    ensures Apart(Pairing(rs, live))
    decreases |live|
  {
    hide FirstClosing, SameTty, Closes, IsLogin, Apart, Without;
    if live == [] {
      assert Apart([]) by {
        NothingApart();
      }
    } else {
      LiveTail(rs, live);
      var i, rest := live[0], live[1..];
      var k := if IsLogin(rs, i) then FirstClosing(rs, i, rest) else |rest|;
      if k == |rest| {
        PairsDistinct(rs, rest);
      } else {
        var left := Without(rs, rest, k);
        WithoutMembers(rs, rest, k);
        PairsDistinct(rs, left);
        assert Pairing(rs, live) == [(i, rest[k])] + Pairing(rs, left);
        HeadPairDistinct(i, rest[k], Pairing(rs, left));
      }
    }
  }

  lemma NothingApart()
    ensures Apart([])
  {
  }

  lemma HeadPairDistinct(i: nat, j: nat, qs: seq<(nat, nat)>)
    requires Apart(qs)
    requires forall q | q in qs :: i < q.0 && q.1 != j
    ensures Apart([(i, j)] + qs)
  {
    var ps := [(i, j)] + qs;
    forall a, b | 0 <= a < b < |ps| ensures ps[a].0 < ps[b].0 && ps[a].1 != ps[b].1 {
      assert ps[b] == qs[b - 1] && qs[b - 1] in qs;
    }
  }

  // ---------- Assignments ----------

  /** A live login and a later live logout that closes it. */
  predicate Link(rs: seq<Login>, live: seq<nat>, i: nat, j: nat)
    requires Live(rs, live)
  {
    i in live && j in live && i < j && IsLogin(rs, i) && Closes(rs, i, j)
  }

  /** Each login in the domain is given a later logout that closes it, and no logout is given twice. */
  ghost predicate Assignment(rs: seq<Login>, live: seq<nat>, m: map<nat, nat>)
    requires Live(rs, live)
  {
    && (forall i | i in m :: Link(rs, live, i, m[i]))
    && (forall i, x | i in m && x in m && m[i] == m[x] :: i == x)
  }

  function AsMap(ps: seq<(nat, nat)>): map<nat, nat> {
    if ps == [] then map[] else AsMap(ps[..|ps| - 1])[ps[|ps| - 1].0 := ps[|ps| - 1].1]
  }

  lemma {:induction false} AsMapPairs(ps: seq<(nat, nat)>)
    requires Apart(ps)
    ensures |AsMap(ps)| == |ps|
    ensures forall i :: i in AsMap(ps) ==> (i, AsMap(ps)[i]) in ps
    ensures forall p | p in ps :: p.0 in AsMap(ps) && AsMap(ps)[p.0] == p.1
  {
    if ps != [] {
      var n := |ps| - 1;
      AsMapPairs(ps[..n]);
      assert ps[n].0 !in AsMap(ps[..n]);
    }
  }

  /** The reported pairs are an assignment, one login for each pair. */
  lemma PairingIsAssignment(rs: seq<Login>, live: seq<nat>)
    requires Live(rs, live)
    ensures var m := AsMap(Pairing(rs, live));
            Assignment(rs, live, m) && |m| == |Pairing(rs, live)|
  {
    hide FirstClosing, SameTty, Closes, IsLogin, Pairing, AsMap;
    var ps := Pairing(rs, live);
    var m := AsMap(ps);
    PairsClose(rs, live);
    PairsDistinct(rs, live);
    AsMapPairs(ps);
    forall i, x | i in m && x in m && m[i] == m[x] ensures i == x {
      var a :| 0 <= a < |ps| && ps[a] == (i, m[i]);
      var b :| 0 <= b < |ps| && ps[b] == (x, m[x]);
    }
  }

  // ---------- A largest matching ----------

  /** On each terminal the logouts' times do not go back. */
  ghost predicate LogoutsOrdered(rs: seq<Login>) {
    forall i, j | 0 <= i < j < |rs| && rs[i].kind == DEAD_PROCESS && rs[j].kind == DEAD_PROCESS && SameTty(rs, i, j) ::
      rs[i].info.logintime <= rs[j].info.logintime
  }

  /**
    The exchange: an assignment that uses the head login i and its first closing logout j, or
    either, or neither, leaves an assignment of the other records at most one login smaller.
   */
  lemma Exchange(rs: seq<Login>, live: seq<nat>, k: nat, m: map<nat, nat>) returns (r: map<nat, nat>)
    requires Live(rs, live) && live != [] && LogoutsOrdered(rs)
    requires IsLogin(rs, live[0]) && k == FirstClosing(rs, live[0], live[1..]) < |live| - 1
    requires Assignment(rs, live, m)
    ensures Assignment(rs, Without(rs, live[1..], k), r)
    ensures |m| <= |r| + 1
  {
    hide FirstClosing, IsLogin, Closes, Live, Without, Assignment;
    var i, rest := live[0], live[1..];
    var j := rest[k];
    LiveTail(rs, live);
    WithoutMembers(rs, rest, k);
    if b :| b in m && m[b] == j {
      if b != i && i in m {
        r := Swap(rs, live, k, m, b);
      } else {
        r := m - {b};
        assert r.Keys == m.Keys - {b};
        Submap(rs, live, m, r);
        Avoids(rs, live, j, m, b);
      }
    } else {
      r := m - {i};
      assert r.Keys == m.Keys - {i};
      Submap(rs, live, m, r);
    }
    assert i !in r && forall x | x in r :: r[x] != j;
    assert j in live;
    LogoutIsNoLogin(rs, live, i, j);
    Narrow(rs, live, Without(rs, rest, k), r, j);
  }

  lemma LogoutIsNoLogin(rs: seq<Login>, live: seq<nat>, i: nat, j: nat)
    requires Live(rs, live) && i in live && j in live && Closes(rs, i, j)
    ensures j < |rs| && !IsLogin(rs, j)
  {
  }

  lemma Submap(rs: seq<Login>, live: seq<nat>, m: map<nat, nat>, r: map<nat, nat>)
    requires Live(rs, live) && Assignment(rs, live, m)
    requires r.Keys <= m.Keys && forall x | x in r :: r[x] == m[x]
    ensures Assignment(rs, live, r)
  {
  }

  /** An assignment that does not use the head or j lives on what is left without them. */
  lemma Narrow(rs: seq<Login>, live: seq<nat>, left: seq<nat>, m: map<nat, nat>, j: nat)
    requires Live(rs, live) && Live(rs, left) && live != [] && Assignment(rs, live, m)
    requires j < |rs| && !IsLogin(rs, j)
    requires forall x :: x in left <==> x in live && x != live[0] && x != j
    requires live[0] !in m && forall x | x in m :: m[x] != j
    ensures Assignment(rs, left, m)
  {
    LiveTail(rs, live);
  }

  /** A closing logout other than the first one comes after it. */
  lemma LaterLogout(rs: seq<Login>, i: nat, rest: seq<nat>, k: nat, m: nat)
    requires i < |rs| && Live(rs, rest) && k == FirstClosing(rs, i, rest) < |rest|
    requires m in rest && m != rest[k] && Closes(rs, i, m)
    ensures rest[k] < m
  {
    var a :| 0 <= a < |rest| && rest[a] == m;
    assert a > k;
  }

  lemma Avoids(rs: seq<Login>, live: seq<nat>, j: nat, m: map<nat, nat>, b: nat)
    requires Live(rs, live) && Assignment(rs, live, m) && b in m && m[b] == j
    ensures forall x | x in m && x != b :: m[x] != j
  {
  }

  /** Dropping i and giving its logout to b keeps an assignment. */
  lemma Redirect(rs: seq<Login>, live: seq<nat>, m: map<nat, nat>, i: nat, b: nat) returns (r: map<nat, nat>)
    requires Live(rs, live) && Assignment(rs, live, m)
    requires i in m && b in m && i != b && Link(rs, live, b, m[i])
    ensures Assignment(rs, live, r) && |r| == |m| - 1
    ensures i !in r && forall x | x in r :: r[x] != m[b]
  {
    hide Link, Live;
    r := map x | x in m && x != i :: if x == b then m[i] else m[x];
    assert r.Keys == m.Keys - {i};
    assert forall x | x in r && x != b :: m[x] != m[i] && m[x] != m[b];
  }

  /** The pairs (i, y) and (b, j) become the one pair (b, y), which is closed because j is not later than y. */
  lemma Swap(rs: seq<Login>, live: seq<nat>, k: nat, m: map<nat, nat>, b: nat) returns (r: map<nat, nat>)
    requires Live(rs, live) && live != [] && LogoutsOrdered(rs) && Assignment(rs, live, m)
    requires k == FirstClosing(rs, live[0], live[1..]) < |live| - 1
    requires live[0] in m && b in m && b != live[0] && m[b] == live[1..][k]
    ensures Assignment(rs, live, r) && |r| == |m| - 1
    ensures live[0] !in r && forall x | x in r :: r[x] != m[b]
  {
    hide FirstClosing;
    var i, y := live[0], m[live[0]];
    LiveTail(rs, live);
    assert Link(rs, live, i, y) && Link(rs, live, b, m[b]);
    LaterLogout(rs, i, live[1..], k, y);
    assert Link(rs, live, b, y);
    r := Redirect(rs, live, m, i, b);
  }

  /** A head that is paired with nothing is in no assignment. */
  lemma HeadUnused(rs: seq<Login>, live: seq<nat>, m: map<nat, nat>)
    requires Live(rs, live) && live != [] && Assignment(rs, live, m)
    requires IsLogin(rs, live[0]) ==> FirstClosing(rs, live[0], live[1..]) == |live| - 1
    ensures Live(rs, live[1..]) && Assignment(rs, live[1..], m)
  {
    hide FirstClosing;
    LiveTail(rs, live);
    var i, rest := live[0], live[1..];
    forall x | x in m ensures Link(rs, rest, x, m[x]) {
      assert Link(rs, live, x, m[x]);
    }
  }

  /** No assignment of logins to later closing logouts pairs more logins. */
  lemma {:induction false} PairingIsLargest(rs: seq<Login>, live: seq<nat>, m: map<nat, nat>)
    requires Live(rs, live) && LogoutsOrdered(rs) && Assignment(rs, live, m)
    ensures |m| <= |Pairing(rs, live)|
    decreases |live|
  {
    hide FirstClosing, Closes, LogoutsOrdered, Link;
    if live == [] {
      NothingAssigned(rs, m);
    } else {
      LiveTail(rs, live);
      var i, rest := live[0], live[1..];
      var k := if IsLogin(rs, i) then FirstClosing(rs, i, rest) else |rest|;
      if k == |rest| {
        HeadUnused(rs, live, m);
        PairingIsLargest(rs, rest, m);
      } else {
        var r := Exchange(rs, live, k, m);
        PairingIsLargest(rs, Without(rs, rest, k), r);
      }
    }
  }

  lemma NothingAssigned(rs: seq<Login>, m: map<nat, nat>)
    requires Assignment(rs, [], m)
    ensures |m| == 0
  {
    assert m == map[];
  }

  // ---------- First in, first out ----------

  /** On each terminal the logins' times do not go back. */
  ghost predicate LoginsOrdered(rs: seq<Login>) {
    forall i, j | 0 <= i < j < |rs| && IsLogin(rs, i) && IsLogin(rs, j) && SameTty(rs, i, j) ::
      rs[i].info.logintime <= rs[j].info.logintime
  }

  /** A logout that closes a login also closes the earlier logins of its terminal. */
  lemma ClosesEarlier(rs: seq<Login>, i: nat, u: nat, j: nat)
    requires LoginsOrdered(rs) && i < u < |rs| && j < |rs|
    requires IsLogin(rs, i) && IsLogin(rs, u) && SameTty(rs, i, u) && Closes(rs, u, j)
    ensures Closes(rs, i, j)
  {
  }

  ghost predicate Fifo(rs: seq<Login>, ps: seq<(nat, nat)>)
    requires forall p | p in ps :: p.0 < |rs|
  {
    forall p, q | p in ps && q in ps && p.0 < q.0 && SameTty(rs, p.0, q.0) :: p.1 < q.1
  }

  /** Of two paired logins on a terminal, the earlier has the earlier logout. */
  lemma {:induction false} PairingIsFifo(rs: seq<Login>, live: seq<nat>)
    requires Live(rs, live) && LoginsOrdered(rs)
    ensures Fifo(rs, Pairing(rs, live))
    decreases |live|
  {
    hide LoginsOrdered, SameTty, Closes, IsLogin, FirstClosing;
    if live != [] {
      LiveTail(rs, live);
      var i, rest := live[0], live[1..];
      var k := if IsLogin(rs, i) then FirstClosing(rs, i, rest) else |rest|;
      if k == |rest| {
        PairingIsFifo(rs, rest);
      } else {
        var left := Without(rs, rest, k);
        WithoutMembers(rs, rest, k);
        PairingIsFifo(rs, left);
        PairsClose(rs, left);
        var qs := Pairing(rs, left);
        assert Pairing(rs, live) == [(i, rest[k])] + qs;
        forall q | q in qs && SameTty(rs, i, q.0) ensures rest[k] < q.1 {
          ClosesEarlier(rs, i, q.0, q.1);
          LaterLogout(rs, i, rest, k, q.1);
        }
      }
    }
  }

  lemma ClosingExists(rs: seq<Login>, i: nat, rest: seq<nat>, j: nat)
    requires i < |rs| && Live(rs, rest) && j in rest && Closes(rs, i, j)
    ensures FirstClosing(rs, i, rest) < |rest| && rest[FirstClosing(rs, i, rest)] <= j
  {
    var a :| 0 <= a < |rest| && rest[a] == j;
    assert FirstClosing(rs, i, rest) <= a;
  }

  /** A login before a paired login of its terminal is itself paired: the unpaired ones come last. */
  lemma {:induction false} UnpairedAreLast(rs: seq<Login>, live: seq<nat>, u: nat, p: (nat, nat))
    requires Live(rs, live) && LoginsOrdered(rs)
    requires p in Pairing(rs, live) && u in live && u < p.0
    requires IsLogin(rs, u) && SameTty(rs, u, p.0)
    ensures exists q :: q in Pairing(rs, live) && q.0 == u
    decreases |live|
  {
    hide LoginsOrdered, SameTty, Closes, IsLogin, FirstClosing;
    LiveTail(rs, live);
    var i, rest := live[0], live[1..];
    var k := if IsLogin(rs, i) then FirstClosing(rs, i, rest) else |rest|;
    PairsClose(rs, live);
    if i == u {
      ClosesEarlier(rs, u, p.0, p.1);
      ClosingExists(rs, i, rest, p.1);
      assert Pairing(rs, live)[0] == (u, rest[k]);
    } else if k == |rest| {
      UnpairedAreLast(rs, rest, u, p);
    } else {
      var left := Without(rs, rest, k);
      WithoutMembers(rs, rest, k);
      assert Pairing(rs, live) == [(i, rest[k])] + Pairing(rs, left);
      LogoutIsNoLogin(rs, live, i, rest[k]);
      UnpairedAreLast(rs, left, u, p);
      var q :| q in Pairing(rs, left) && q.0 == u;
      assert q in Pairing(rs, live);
    }
  }

  // ---------- Alternating terminals ----------

  /** j is the next live record on i's terminal. */
  ghost predicate Next(rs: seq<Login>, live: seq<nat>, i: nat, j: nat)
    requires Live(rs, live)
  {
    && i in live && j in live && i < j && SameTty(rs, i, j)
    && forall m | m in live && i < m < j :: !SameTty(rs, i, m)
  }

  /** On each terminal logins and logouts take turns, and time does not go back. */
  ghost predicate Alternating(rs: seq<Login>, live: seq<nat>)
    requires Live(rs, live)
  {
    forall i: nat, j: nat | Next(rs, live, i, j) ::
      (IsLogin(rs, i) <==> rs[j].kind == DEAD_PROCESS) && rs[i].info.logintime <= rs[j].info.logintime
  }

  /** The first later record of the terminal, when there is one. */
  lemma {:induction false} NextExists(rs: seq<Login>, live: seq<nat>, i: nat, m: nat) returns (j: nat)
    requires Live(rs, live) && i in live && m in live && i < m && SameTty(rs, i, m)
    ensures Next(rs, live, i, j) && j <= m
    decreases m
  {
    if x :| x in live && i < x < m && SameTty(rs, i, x) {
      j := NextExists(rs, live, i, x);
    } else {
      j := m;
    }
  }

  /** The head login is closed by the next record of its terminal, if there is one. */
  lemma HeadTakesNext(rs: seq<Login>, live: seq<nat>)
    requires Live(rs, live) && live != [] && Alternating(rs, live) && IsLogin(rs, live[0])
    ensures var k := FirstClosing(rs, live[0], live[1..]);
            && (k < |live| - 1 ==> Next(rs, live, live[0], live[1..][k]))
            && (forall j: nat | Next(rs, live, live[0], j) :: k < |live| - 1 && live[1..][k] == j)
  {
    LiveTail(rs, live);
    var i, rest := live[0], live[1..];
    var k := FirstClosing(rs, i, rest);
    if k < |rest| {
      var j := NextExists(rs, live, i, rest[k]);
      ClosedBy(rs, live, j);
    }
    forall j: nat | Next(rs, live, i, j) ensures k < |rest| && rest[k] == j {
      ClosedBy(rs, live, j);
    }
  }

  lemma ClosedBy(rs: seq<Login>, live: seq<nat>, j: nat)
    requires Live(rs, live) && live != [] && Alternating(rs, live) && IsLogin(rs, live[0])
    requires Next(rs, live, live[0], j)
    ensures var k := FirstClosing(rs, live[0], live[1..]);
            k < |live| - 1 && live[1..][k] == j
  {
    LiveTail(rs, live);
    var rest := live[1..];
    var k := FirstClosing(rs, live[0], rest);
    assert Closes(rs, live[0], j);
    ClosingExists(rs, live[0], rest, j);
    assert rest[k] <= j;
    assert SameTty(rs, live[0], rest[k]);
  }

  /** Records whose head, or whose head and its next, are gone have the same neighbours as before. */
  lemma NextKept(rs: seq<Login>, live: seq<nat>, left: seq<nat>, j: nat)
    requires Live(rs, live) && Live(rs, left) && live != []
    requires j == live[0] || Next(rs, live, live[0], j)
    requires forall x :: x in left <==> x in live && x != live[0] && x != j
    ensures forall x: nat, y: nat :: Next(rs, left, x, y) ==> Next(rs, live, x, y)
    ensures forall x: nat, y: nat :: Next(rs, live, x, y) && x != live[0] && x != j ==> Next(rs, left, x, y)
  {
    LiveTail(rs, live);
    forall x: nat, y: nat | Next(rs, left, x, y) ensures Next(rs, live, x, y) {
      forall m | m in live && x < m < y ensures !SameTty(rs, x, m) {
        assert m in left || m == j;
      }
    }
  }

  lemma NextInLive(rs: seq<Login>, live: seq<nat>, x: nat, y: nat)
    requires Live(rs, live) && Next(rs, live, x, y)
    ensures x in live && y in live && x < y
  {
  }

  /** Every session is reported with exactly its own logout: the next record of its terminal. */
  lemma {:induction false} AlternatingExact(rs: seq<Login>, live: seq<nat>, x: nat, y: nat)
    requires Live(rs, live) && Alternating(rs, live)
    ensures (x, y) in Pairing(rs, live) <==> Next(rs, live, x, y) && IsLogin(rs, x)
    decreases |live|
  {
    hide FirstClosing, Closes, Next;
    if Next(rs, live, x, y) {
      NextInLive(rs, live, x, y);
    }
    if live != [] {
      LiveTail(rs, live);
      var i, rest := live[0], live[1..];
      var k := if IsLogin(rs, i) then FirstClosing(rs, i, rest) else |rest|;
      if IsLogin(rs, i) {
        HeadTakesNext(rs, live);
      }
      if k == |rest| {
        NextKept(rs, live, rest, i);
        AlternatingExact(rs, rest, x, y);
      } else {
        var left := Without(rs, rest, k);
        WithoutMembers(rs, rest, k);
        LogoutIsNoLogin(rs, live, i, rest[k]);
        assert Pairing(rs, live) == [(i, rest[k])] + Pairing(rs, left);
        NextKept(rs, live, left, rest[k]);
        AlternatingExact(rs, left, x, y);
      }
    }
  }
}
