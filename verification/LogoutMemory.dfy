/**
  Which list nodes os_info_logout_tty frees. A node stands for the record at its place in the
  file's entries; the nodes may be any values that differ from place to place.
 */
module LogoutMemory {
  import opened LogoutBalance
  import opened Sessions

  function Logins(ps: seq<(nat, nat)>): set<nat> {
    set p | p in ps :: p.0
  }

  /**
    Records whose nodes are never freed when the run ends with the given number of calls: logins
    taken off the list that were not paired, and the login whose call ended the run.
   */
  ghost predicate Leaked(rs: seq<Login>, calls: nat, stopped: bool, a: nat)
    requires a < |rs| && calls <= |Pairs(rs)| && (stopped ==> calls > 0)
  {
    && IsLogin(rs, a)
    && (stopped ==> a <= Pairs(rs)[calls - 1].0)
    && a !in Logins(Pairs(rs)[..if stopped then calls - 1 else calls])
  }

  /** Of all the nodes exactly the leaked ones are not freed. */
  ghost predicate FreedButLeaked<N>(rs: seq<Login>, nodes: seq<N>, freed: set<N>, calls: nat, stopped: bool) {
    && |nodes| == |rs| && calls <= |Pairs(rs)| && (stopped ==> calls > 0)
    && forall a: nat | a < |rs| :: nodes[a] in freed <==> !Leaked(rs, calls, stopped, a)
  }

  ghost predicate Different<N>(nodes: seq<N>) {
    forall a, b :: 0 <= a < b < |nodes| ==> nodes[a] != nodes[b]
  }

  /** The nodes in the list are those of the live records. */
  ghost predicate StandFor<N>(nodes: seq<N>, s: seq<N>, live: seq<nat>) {
    |s| == |live| && forall k :: 0 <= k < |s| ==> live[k] < |nodes| && s[k] == nodes[live[k]]
  }

  /** Logins leave the list in order, paired records have left it, and those not leaked so far are freed. */
  ghost predicate Released<N>(rs: seq<Login>, nodes: seq<N>, freed: set<N>, live: seq<nat>, done: seq<(nat, nat)>) {
    && |nodes| == |rs|
    && (forall p | p in done :: p.0 !in live)
    && (forall a: nat, b | a < |rs| && IsLogin(rs, a) && a !in live && b in live :: a < b)
    && (forall a: nat | a < |rs| :: nodes[a] in freed <==> a !in live && (IsLogin(rs, a) ==> a in Logins(done)))
  }

  lemma NothingReleased<N>(rs: seq<Login>, nodes: seq<N>)
    requires |nodes| == |rs|
    ensures Released(rs, nodes, {}, All(rs), []) && StandFor(nodes, nodes, All(rs))
  {
    forall a: nat | a < |rs| ensures a in All(rs) {
      assert All(rs)[a] == a;
    }
  }

  lemma StandTail<N>(nodes: seq<N>, s: seq<N>, live: seq<nat>)
    requires StandFor(nodes, s, live) && s != []
    ensures live != [] && live[0] < |nodes| && s[0] == nodes[live[0]] && StandFor(nodes, s[1..], live[1..])
  {
  }

  lemma StandWithout<N>(rs: seq<Login>, nodes: seq<N>, s: seq<N>, live: seq<nat>, k: nat)
    requires StandFor(nodes, s, live) && Live(rs, live) && k < |live|
    ensures live[k] < |nodes| && s[k] == nodes[live[k]]
    ensures StandFor(nodes, s[..k] + s[k + 1..], Without(rs, live, k))
  {
  }

  /** The head is no login: its node is freed. */
  lemma FreeLogout<N>(rs: seq<Login>, nodes: seq<N>, freed: set<N>, live: seq<nat>, done: seq<(nat, nat)>)
    requires Released(rs, nodes, freed, live, done) && Different(nodes) && Live(rs, live) && live != []
    requires !IsLogin(rs, live[0])
    ensures nodes[live[0]] !in freed
    ensures Released(rs, nodes, freed + {nodes[live[0]]}, live[1..], done)
  {
    LiveTail(rs, live);
  }

  /** The head is a login that nothing closes: its node is dropped. */
  lemma DropLogin<N>(rs: seq<Login>, nodes: seq<N>, freed: set<N>, live: seq<nat>, done: seq<(nat, nat)>)
    requires Released(rs, nodes, freed, live, done) && Live(rs, live) && live != []
    requires IsLogin(rs, live[0])
    ensures Released(rs, nodes, freed, live[1..], done)
  {
    LiveTail(rs, live);
  }

  /** The head login and its logout are freed. */
  lemma FreePair<N>(rs: seq<Login>, nodes: seq<N>, freed: set<N>, live: seq<nat>, done: seq<(nat, nat)>, k: nat)
    requires Released(rs, nodes, freed, live, done) && Different(nodes) && Live(rs, live) && live != []
    requires k < |live| - 1 && IsLogin(rs, live[0]) && !IsLogin(rs, live[1..][k])
    ensures nodes[live[0]] !in freed && nodes[live[1..][k]] !in freed && nodes[live[0]] != nodes[live[1..][k]]
    ensures Released(rs, nodes, freed + {nodes[live[0]], nodes[live[1..][k]]}, Without(rs, live[1..], k),
                     done + [(live[0], live[1..][k])])
  {
    LiveTail(rs, live);
    WithoutMembers(rs, live[1..], k);
  }

  function Nodes<N>(s: seq<N>): set<N> {
    set x | x in s
  }

  /** At the end of the list all nodes but the leaked ones are freed. */
  lemma AllReleased<N>(rs: seq<Login>, nodes: seq<N>, freed: set<N>, done: seq<(nat, nat)>)
    requires Released(rs, nodes, freed, [], done) && done == Pairs(rs)
    ensures FreedButLeaked(rs, nodes, freed, |done|, false)
  {
    hide Pairing;
    assert done[..|done|] == done;
  }

  /** A negative answer frees what is left in the list, and nothing twice. */
  lemma RestReleased<N>(rs: seq<Login>, nodes: seq<N>, freed: set<N>, live: seq<nat>, done: seq<(nat, nat)>,
                        s: seq<N>, j: nat, coming: seq<(nat, nat)>)
    requires Released(rs, nodes, freed, live, done) && Different(nodes) && Live(rs, live) && live != []
    requires IsLogin(rs, live[0]) && StandFor(nodes, s, live[1..])
    requires Pairs(rs) == done + ([(live[0], j)] + coming)
    ensures Nodes(s) !! freed
    ensures FreedButLeaked(rs, nodes, freed + Nodes(s), |done| + 1, true)
  {
    hide Pairing;
    LiveTail(rs, live);
    var rest := live[1..];
    assert Pairs(rs)[..|done|] == done && Pairs(rs)[|done|] == (live[0], j);
    forall a: nat | a < |rs| ensures nodes[a] in Nodes(s) <==> a in rest {
      if a in rest {
        var k :| 0 <= k < |rest| && rest[k] == a;
        assert s[k] == nodes[a];
      }
    }
    assert Nodes(s) !! freed by {
      forall x | x in s ensures x !in freed {
        var k :| 0 <= k < |s| && s[k] == x;
        assert rest[k] in live;
      }
    }
  }

  /**
    When no logout is before an earlier login of its terminal, nothing leaks exactly when no
    answer ended the run and from every place of the records on each terminal has at least as
    many logouts as logins. An answer that ends the run always leaks.
   */
  lemma LeakFree(rs: seq<Login>, calls: nat, stopped: bool)
    requires calls <= |Pairs(rs)| && (stopped ==> calls > 0) && (!stopped ==> calls == |Pairs(rs)|)
    requires !stopped ==> InOrder(rs)
    ensures (forall a: nat | a < |rs| :: !Leaked(rs, calls, stopped, a)) <==> !stopped && Enough(rs)
  {
    hide Pairing, InOrder, Enough, All;
    if stopped {
      LastLeaks(rs, calls);
    } else {
      AllServed(rs, All(rs));
      PickedAll(rs);
      ServedIsPaired(rs);
      assert Pairs(rs)[..calls] == Pairs(rs);
      assert forall a: nat | a < |rs| :: Leaked(rs, calls, stopped, a) <==> IsLogin(rs, a) && a !in Logins(Pairs(rs));
    }
  }

  lemma PickedAll(rs: seq<Login>)
    ensures Picked(rs, All(rs)) == rs
  {
  }

  lemma ServedIsPaired(rs: seq<Login>)
    ensures Served(rs, All(rs), Pairs(rs)) <==> forall a: nat | a < |rs| && IsLogin(rs, a) :: a in Logins(Pairs(rs))
  {
    hide Pairing;
    forall a: nat | a < |rs| ensures a in All(rs) {
      assert All(rs)[a] == a;
    }
  }

  /** The login whose call ends the run is leaked. */
  lemma LastLeaks(rs: seq<Login>, calls: nat)
    requires 0 < calls <= |Pairs(rs)|
    ensures var a := Pairs(rs)[calls - 1].0; a < |rs| && Leaked(rs, calls, true, a)
  {
    hide Pairing;
    var ps := Pairs(rs);
    PairsClose(rs, All(rs));
    PairsDistinct(rs, All(rs));
    var p := ps[calls - 1];
    assert p in ps && Apart(ps);
    forall q | q in ps[..calls - 1] ensures q.0 < p.0 {
      var k :| 0 <= k < calls - 1 && ps[k] == q;
    }
  }

  /** A login alone in the file leaks. */
  lemma LoneLoginLeaks(login: Login)
    requires login.kind == USER_PROCESS
    ensures |Pairs([login])| == 0 && Leaked([login], 0, false, 0)
  {
    var rs := [login];
    assert All(rs) == [0] && All(rs)[1..] == [];
    assert FirstClosing(rs, 0, []) == 0;
    assert Pairing(rs, []) == [];
  }
}
