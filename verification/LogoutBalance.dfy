/**
  When every login is paired: a test on the records alone. In time order no login is left over
  exactly when, from every place on, each terminal has at least as many logouts as logins.
 */
module LogoutBalance {
  import opened Sessions

  /** The logouts on a terminal less its logins. */
  function Surplus(es: seq<Login>, tty: string): int {
    if es == [] then 0
    else
      Surplus(es[1..], tty) +
      (if es[0].info.tty != tty then 0
       else if es[0].kind == USER_PROCESS then -1
       else if es[0].kind == DEAD_PROCESS then 1
       else 0)
  }

  /** No terminal has more logins than logouts. */
  ghost predicate Covered(es: seq<Login>) {
    forall tty :: Surplus(es, tty) >= 0
  }

  /** That is so from every place on. */
  ghost predicate Enough(es: seq<Login>) {
    forall p | 0 <= p <= |es| :: Covered(es[p..])
  }

  /** No logout of a terminal is before an earlier login of it. */
  ghost predicate InOrder(rs: seq<Login>) {
    forall i, j | 0 <= i < j < |rs| && IsLogin(rs, i) && rs[j].kind == DEAD_PROCESS && SameTty(rs, j, i) ::
      rs[i].info.logintime <= rs[j].info.logintime
  }

  /** So it is in a file written in time order. */
  lemma ChronologicalInOrder(file: seq<Utmp>)
    requires Chronological(file)
    ensures InOrder(Entries(file))
  {
    hide Entries;
    EntriesInTimeOrder(file);
  }

  lemma {:induction false} SurplusConcat(a: seq<Login>, b: seq<Login>, tty: string)
    ensures Surplus(a + b, tty) == Surplus(a, tty) + Surplus(b, tty)
  {
    if a == [] {
      assert a + b == b;
    } else {
      SurplusConcat(a[1..], b, tty);
      assert (a + b)[1..] == a[1..] + b;
    }
  }

  lemma SurplusOne(e: Login, tty: string)
    ensures Surplus([e], tty) ==
      if e.info.tty != tty then 0 else if e.kind == USER_PROCESS then -1 else if e.kind == DEAD_PROCESS then 1 else 0
  {
    assert [e][1..] == [];
  }

  /** Records without a logout of a terminal have no surplus there. */
  lemma {:induction false} NoSurplus(es: seq<Login>, tty: string)
    requires forall e | e in es :: e.info.tty != tty || e.kind != DEAD_PROCESS
    ensures Surplus(es, tty) <= 0
  {
    if es != [] {
      NoSurplus(es[1..], tty);
    }
  }

  lemma EnoughTail(e: Login, es: seq<Login>)
    ensures Enough([e] + es) <==> Enough(es) && Covered([e] + es)
  {
    hide Covered;
    var all := [e] + es;
    assert all[0..] == all;
    forall p | 0 <= p <= |es| ensures all[p + 1..] == es[p..] {
    }
    if Enough(all) {
      forall p | 0 <= p <= |es| ensures Covered(es[p..]) {
        assert Covered(all[p + 1..]);
      }
    }
    if Enough(es) && Covered(all) {
      forall p | 0 <= p <= |all| ensures Covered(all[p..]) {
        if p > 0 {
          assert Covered(es[p - 1..]) && es[p - 1..] == all[p..];
        }
      }
    }
  }

  /** A logout may be taken out with a login before it when none of the terminal stands between them. */
  ghost predicate Bracket(e: Login, a: seq<Login>, d: Login) {
    && e.kind == USER_PROCESS && d.kind == DEAD_PROCESS && d.info.tty == e.info.tty
    && forall x | x in a :: x.info.tty != e.info.tty || x.kind != DEAD_PROCESS
  }

  /** The surplus over a + b, given that of b, is one less than over a + [d] + b on d's terminal. */
  lemma SurplusWith(a: seq<Login>, d: Login, b: seq<Login>, tty: string)
    requires d.kind == DEAD_PROCESS
    ensures Surplus(a + [d] + b, tty) == Surplus(a + b, tty) + (if d.info.tty == tty then 1 else 0)
  {
    hide Surplus;
    SurplusConcat(a + [d], b, tty);
    SurplusConcat(a, [d], tty);
    SurplusConcat(a, b, tty);
    SurplusOne(d, tty);
  }

  /** Putting d back into a + b in front of b keeps enough logouts. */
  lemma {:induction false} EnoughWith(a: seq<Login>, d: Login, b: seq<Login>)
    requires d.kind == DEAD_PROCESS && Enough(a + b)
    ensures Enough(a + [d] + b)
    decreases |a|
  {
    hide Surplus, Enough;
    if a == [] {
      assert a + b == b && a + [d] + b == [d] + b;
      EnoughTail(d, b);
      forall tty ensures Surplus([d] + b, tty) >= 0 {
        SurplusWith([], d, b, tty);
        assert [] + [d] + b == [d] + b && [] + b == b;
        EnoughHere(b, tty);
      }
    } else {
      var rest := a[1..];
      assert a + b == [a[0]] + (rest + b) && a + [d] + b == [a[0]] + (rest + [d] + b);
      EnoughTail(a[0], rest + b);
      EnoughWith(rest, d, b);
      EnoughTail(a[0], rest + [d] + b);
      forall tty ensures Surplus(a + [d] + b, tty) >= 0 {
        SurplusWith(a, d, b, tty);
        EnoughHere(a + b, tty);
      }
    }
  }

  lemma EnoughHere(es: seq<Login>, tty: string)
    requires Enough(es)
    ensures Surplus(es, tty) >= 0
  {
    assert es[0..] == es;
  }

  /** Taking d out keeps enough logouts when there is one to spare in front of the records without one. */
  lemma {:induction false} EnoughWithout(a: seq<Login>, d: Login, b: seq<Login>)
    requires d.kind == DEAD_PROCESS && Enough(a + [d] + b) && Surplus(a + [d] + b, d.info.tty) >= 1
    requires forall x | x in a :: x.info.tty != d.info.tty || x.kind != DEAD_PROCESS
    ensures Enough(a + b)
    decreases |a|
  {
    hide Surplus, Enough;
    forall tty ensures Surplus(a + b, tty) >= 0 {
      SurplusWith(a, d, b, tty);
      EnoughHere(a + [d] + b, tty);
    }
    if a == [] {
      assert a + b == b && a + [d] + b == [d] + b;
      EnoughTail(d, b);
    } else {
      var rest := a[1..];
      assert a + b == [a[0]] + (rest + b) && a + [d] + b == [a[0]] + (rest + [d] + b);
      EnoughTail(a[0], rest + [d] + b);
      SurplusConcat([a[0]], rest + [d] + b, d.info.tty);
      NoSurplus([a[0]], d.info.tty);
      EnoughWithout(rest, d, b);
      EnoughTail(a[0], rest + b);
    }
  }

  /** A login and its terminal's next logout make no difference. */
  lemma BracketGone(e: Login, a: seq<Login>, d: Login, b: seq<Login>)
    requires Bracket(e, a, d)
    ensures Enough([e] + (a + [d] + b)) <==> Enough(a + b)
  {
    hide Surplus, Enough;
    var all := a + [d] + b;
    EnoughTail(e, all);
    forall tty ensures Surplus([e] + all, tty) == Surplus(a + b, tty) {
      SurplusConcat([e], all, tty);
      SurplusOne(e, tty);
      SurplusWith(a, d, b, tty);
    }
    if Enough([e] + all) {
      EnoughHere([e] + all, d.info.tty);
      SurplusWith(a, d, b, d.info.tty);
      EnoughWithout(a, d, b);
    }
    if Enough(a + b) {
      forall tty ensures Surplus([e] + all, tty) >= 0 {
        EnoughHere(a + b, tty);
      }
      EnoughWith(a, d, b);
    }
  }

  // ---------- Against the pairing ----------

  function Picked(rs: seq<Login>, live: seq<nat>): (es: seq<Login>)
    requires Live(rs, live)
    ensures |es| == |live|
  {
    seq(|live|, k requires 0 <= k < |live| => rs[live[k]])
  }

  /** Every live login is the first of some pair. */
  ghost predicate Served(rs: seq<Login>, live: seq<nat>, ps: seq<(nat, nat)>)
    requires Live(rs, live)
  {
    forall i | i in live && IsLogin(rs, i) :: exists p :: p in ps && p.0 == i
  }

  /** A head that is no login changes nothing. */
  lemma HeadLogout(rs: seq<Login>, live: seq<nat>)
    requires Live(rs, live) && live != [] && !IsLogin(rs, live[0]) && Live(rs, live[1..])
    ensures Enough(Picked(rs, live)) <==> Enough(Picked(rs, live[1..]))
  {
    hide Surplus, Enough;
    var e, es := rs[live[0]], Picked(rs, live[1..]);
    assert Picked(rs, live) == [e] + es;
    EnoughTail(e, es);
    if Enough(es) {
      forall tty ensures Surplus([e] + es, tty) >= 0 {
        SurplusConcat([e], es, tty);
        SurplusOne(e, tty);
        EnoughHere(es, tty);
      }
    }
  }

  /** Behind a head login that nothing closes its terminal has no logout. */
  lemma HeadUnserved(rs: seq<Login>, live: seq<nat>)
    requires Live(rs, live) && live != [] && IsLogin(rs, live[0]) && InOrder(rs) && Live(rs, live[1..])
    requires FirstClosing(rs, live[0], live[1..]) == |live| - 1
    ensures !Enough(Picked(rs, live))
  {
    hide Surplus, Enough, FirstClosing;
    LiveTail(rs, live);
    var i, rest := live[0], live[1..];
    var e, es := rs[i], Picked(rs, rest);
    assert Picked(rs, live) == [e] + es;
    forall x | x in es ensures x.info.tty != e.info.tty || x.kind != DEAD_PROCESS {
      var k :| 0 <= k < |es| && es[k] == x;
      assert !Closes(rs, i, rest[k]) && rest[k] in rest;
    }
    NoSurplus(es, e.info.tty);
    SurplusConcat([e], es, e.info.tty);
    SurplusOne(e, e.info.tty);
    if Enough([e] + es) {
      EnoughHere([e] + es, e.info.tty);
    }
  }

  lemma PickedParts(rs: seq<Login>, live: seq<nat>, k: nat) returns (a: seq<Login>, b: seq<Login>)
    requires Live(rs, live) && live != [] && Live(rs, live[1..]) && k < |live| - 1
    ensures Picked(rs, live) == [rs[live[0]]] + (a + [rs[live[1..][k]]] + b)
    ensures Picked(rs, Without(rs, live[1..], k)) == a + b
    ensures |a| == k && forall m :: 0 <= m < k ==> a[m] == rs[live[1..][m]]
  {
    var es := Picked(rs, live[1..]);
    a, b := es[..k], es[k + 1..];
  }

  /** A head login and the logout that closes it. */
  lemma HeadServed(rs: seq<Login>, live: seq<nat>, k: nat)
    requires Live(rs, live) && live != [] && IsLogin(rs, live[0]) && InOrder(rs) && Live(rs, live[1..])
    requires k == FirstClosing(rs, live[0], live[1..]) < |live| - 1
    ensures Enough(Picked(rs, live)) <==> Enough(Picked(rs, Without(rs, live[1..], k)))
  {
    hide Surplus, Enough, FirstClosing, Picked, Without;
    LiveTail(rs, live);
    var i, rest := live[0], live[1..];
    var a, b := PickedParts(rs, live, k);
    var e, d := rs[i], rs[rest[k]];
    forall x | x in a ensures x.info.tty != e.info.tty || x.kind != DEAD_PROCESS {
      var m :| 0 <= m < k && a[m] == x;
      assert !Closes(rs, i, rest[m]) && rest[m] in rest;
    }
    BracketGone(e, a, d, b);
  }

  /** Every login is paired exactly when there are enough logouts from every place on. */
  lemma {:induction false} AllServed(rs: seq<Login>, live: seq<nat>)
    requires Live(rs, live) && InOrder(rs)
    ensures Served(rs, live, Pairing(rs, live)) <==> Enough(Picked(rs, live))
    decreases |live|
  {
    hide Surplus, FirstClosing, Closes, InOrder, Enough, Served, Picked, Without;
    if live == [] {
      NothingMissing(rs);
    } else {
      LiveTail(rs, live);
      var i, rest := live[0], live[1..];
      var k := if IsLogin(rs, i) then FirstClosing(rs, i, rest) else |rest|;
      if !IsLogin(rs, i) {
        HeadLogout(rs, live);
        AllServed(rs, rest);
        ServedSkip(rs, live, Pairing(rs, rest));
      } else if k == |rest| {
        HeadUnserved(rs, live);
        NotServed(rs, live, Pairing(rs, rest));
      } else {
        HeadServed(rs, live, k);
        var left := Without(rs, rest, k);
        WithoutMembers(rs, rest, k);
        AllServed(rs, left);
        LogoutIsNoLogin(rs, live, i, rest[k]);
        ServedStep(rs, live, left, Pairing(rs, left), rest[k]);
      }
    }
  }

  lemma ServedSkip(rs: seq<Login>, live: seq<nat>, ps: seq<(nat, nat)>)
    requires Live(rs, live) && live != [] && Live(rs, live[1..]) && !IsLogin(rs, live[0])
    ensures Served(rs, live, ps) <==> Served(rs, live[1..], ps)
  {
    LiveTail(rs, live);
  }

  lemma NotServed(rs: seq<Login>, live: seq<nat>, ps: seq<(nat, nat)>)
    requires Live(rs, live) && live != [] && IsLogin(rs, live[0])
    requires forall p | p in ps :: p.0 in live[1..]
    ensures !Served(rs, live, ps)
  {
    LiveTail(rs, live);
    assert live[0] in live;
    assert forall p | p in ps :: p.0 != live[0];
  }

  lemma ServedStep(rs: seq<Login>, live: seq<nat>, left: seq<nat>, ps: seq<(nat, nat)>, j: nat)
    requires Live(rs, live) && Live(rs, left) && live != [] && j < |rs| && !IsLogin(rs, j)
    requires forall x :: x in left <==> x in live && x != live[0] && x != j
    ensures Served(rs, live, [(live[0], j)] + ps) <==> Served(rs, left, ps)
  {
    var i, all := live[0], [(live[0], j)] + ps;
    assert all[0] == (i, j);
    forall x | x in left ensures (exists p :: p in all && p.0 == x) <==> (exists p :: p in ps && p.0 == x) {
      if p :| p in ps && p.0 == x {
        assert p in all;
      }
    }
  }

  lemma NothingMissing(rs: seq<Login>)
    ensures Enough(Picked(rs, [])) && Served(rs, [], Pairing(rs, []))
  {
  }
}
