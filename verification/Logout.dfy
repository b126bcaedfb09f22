/**
  os_info_logout_tty on the list itself: the records become nodes of a ring, the front is
  popped, the rest is scanned with deletion in mid-scan, and the callback is called on exactly
  the pairs of Sessions.Pairs, cut after its first negative answer.
 */
module Logout {
  import opened EarlyStop
  import opened LogoutMemory
  import opened Ring
  import opened Sessions
  import opened Wrappers

  type LoginNode = Ring.Node<Login>

  /** What the callback is given for a pair: the login's record with the logout's time. */
  function Closed(rs: seq<Login>, p: (nat, nat)): LoginInfo
    requires p.0 < |rs| && p.1 < |rs|
  {
    rs[p.0].info.(logouttime := rs[p.1].info.logintime)
  }

  function Reports(rs: seq<Login>, ps: seq<(nat, nat)>): (infos: seq<LoginInfo>)
    requires forall p | p in ps :: p.0 < |rs| && p.1 < |rs|
    ensures |infos| == |ps|
  {
    seq(|ps|, k requires 0 <= k < |ps| => assert ps[k] in ps; Closed(rs, ps[k]))
  }

  /** The callback's negative answer ends the run; it may depend on every call made so far. */
  function Negative(answer: seq<LoginInfo> -> int): seq<LoginInfo> -> bool {
    calls => answer(calls) < 0
  }

  /** The nodes of the ring carry the records at the live positions. */
  ghost predicate Carries(rs: seq<Login>, s: seq<LoginNode>, live: seq<nat>)
    reads s`entry
  {
    |s| == |live| && Live(rs, live) && forall k :: 0 <= k < |s| ==> s[k].entry == Some(rs[live[k]])
  }

  lemma EntriesNone(file: seq<Utmp>)
    ensures Entries(file[..0]) == []
  {
  }

  /** The entry of a record, field by field. */
  lemma RecordFields(r: Utmp, info: LoginInfo)
    requires info.pid == 0 && info.logouttime == -1 && info.logintime == Time(r)
    requires info.tty == Truncate(r.ut_line, MAX_TTY_LEN)
    requires info.username == if r.ut_type == USER_PROCESS then Truncate(r.ut_user, MAX_USER_NAME) else ""
    requires info.hostname == if r.ut_type == USER_PROCESS then Truncate(r.ut_host, MAX_HOST_NAME) else ""
    ensures FromRecord(r) == Login(r.ut_type, info)
  {
  }

  lemma CarriesNothing()
    ensures Carries([], [], All([]))
  {
  }

  lemma CarriesOneMore(rs: seq<Login>, s: seq<LoginNode>, node: LoginNode, e: Login)
    requires Carries(rs, s, All(rs)) && node.entry == Some(e)
    ensures Carries(rs + [e], s + [node], All(rs + [e]))
  {
  }

  /** init_login_list after the file is opened: append a node for each login or logout record. */
  method InitLoginList(file: seq<Utmp>, head: LoginNode) returns (ghost s: seq<LoginNode>)
    requires Valid(head, [])
    modifies head
    ensures Valid(head, s) && fresh(s)
    ensures Carries(Entries(file), s, All(Entries(file)))
  {
    hide Valid, FromRecord, Entries, Carries;
    EntriesNone(file);
    s := [];
    CarriesNothing();
    for n := 0 to |file|
      invariant Valid(head, s) && head !in s && fresh(s)
      invariant Carries(Entries(file[..n]), s, All(Entries(file[..n])))
    {
      assert file[..n + 1] == file[..n] + [file[n]];
      EntriesAppend(file[..n], file[n]);
      if file[n].ut_type != USER_PROCESS && file[n].ut_type != DEAD_PROCESS {
        continue;
      }
      var record := file[n];
      var info := LoginInfo(0, "", 0, "", "", 0);
      if record.ut_type == USER_PROCESS {
        info := info.(username := Truncate(record.ut_user, MAX_USER_NAME));
        info := info.(hostname := Truncate(record.ut_host, MAX_HOST_NAME));
      }
      info := info.(tty := Truncate(record.ut_line, MAX_TTY_LEN));
      info := info.(logintime := record.tv_sec + Seconds(record.tv_usec));
      info := info.(logouttime := -1);
      RecordFields(record, info);
      var node := new Ring.Node<Login>(Some(Login(record.ut_type, info)));
      AddTail(node, head, s);
      CarriesOneMore(Entries(file[..n]), s, node, Login(record.ut_type, info));
      s := s + [node];
    }
    assert file[..|file|] == file;
  }

  /** exit_login_list deletes every node and frees it, once. */
  method ExitLoginList(head: LoginNode, ghost s0: seq<LoginNode>) returns (ghost freed: set<LoginNode>)
    requires Valid(head, s0)
    modifies head, s0
    ensures Valid(head, [])
    ensures freed == Nodes(s0)
  {
    freed := {};
    ghost var s := s0;
    assert Around(head, s)[0].next == Around(head, s)[1];
    var pos := head.next;
    var next := pos.next;
    while pos != head
      invariant Valid(head, s) && forall a :: 0 <= a < |s| ==> s[a] in s0
      invariant pos == Around(head, s)[1] && next == pos.next
      invariant freed + Nodes(s) == Nodes(s0) && freed !! Nodes(s)
      decreases |s|
    {
      FirstApart(head, s);
      TakeFirst(s);
      assert Around(head, s)[1].next == Around(head, s)[2];
      assert forall a :: 0 <= a < |s| + 2 ==> Around(head, s)[a] == head || Around(head, s)[a] in s0;
      Delete(pos, head, s, 0);
      assert s[..0] + s[1..] == s[1..];
      s := s[1..];
      freed := freed + {pos};
      pos := next;
      next := pos.next;
    }
  }

  lemma TakeFirst(s: seq<LoginNode>)
    requires s != []
    ensures Nodes(s) == {s[0]} + Nodes(s[1..])
  {
    assert s == [s[0]] + s[1..];
  }

  /**
    The inner loop: scan the ring for the first logout that closes the popped login, report the
    pair, and unless the callback answers negatively delete the logout in mid-scan, free both
    nodes and leave. A negative answer frees the ring.
   */
  method CloseSession(node: LoginNode, head: LoginNode, answer: seq<LoginInfo> -> int, made: seq<LoginInfo>,
                      ghost rs: seq<Login>, ghost i: nat, ghost s: seq<LoginNode>, ghost rest: seq<nat>)
    returns (calls: seq<LoginInfo>, stop: bool, ghost left: seq<LoginNode>, ghost k: nat, ghost freed: set<LoginNode>)
    requires Valid(head, s) && node != head && node !in s
    requires i < |rs| && node.entry == Some(rs[i]) && Carries(rs, s, rest)
    modifies node, head, s
    ensures k == FirstClosing(rs, i, rest)
    ensures k == |rest| ==> calls == made && !stop && left == s && Valid(head, s) && Carries(rs, s, rest)
    ensures k < |rest| ==> calls == made + [Closed(rs, (i, rest[k]))] && stop == (answer(calls) < 0)
    ensures k < |rest| && !stop ==>
      left == s[..k] + s[k + 1..] && Valid(head, left) && Carries(rs, left, Without(rs, rest, k))
    ensures forall a :: 0 <= a < |left| ==> left[a] in s
    ensures freed == if k == |rest| then {} else if stop then Nodes(s) else {node, s[k]}
  {
    hide Valid, Linked, Distinct, FirstClosing, Without;
    calls, stop, left, k, freed := made, false, s, 0, {};
    FirstLink(head, s);
    var pos := head.next;
    var next := pos.next;
    while pos != head
      invariant Valid(head, s) && Carries(rs, s, rest)
      invariant node.entry == Some(rs[i])
      invariant k <= |s| && pos == (if k < |s| then s[k] else head) && next == pos.next
      invariant forall a :: 0 <= a < k ==> !Closes(rs, i, rest[a])
      decreases |s| - k
    {
      NextLink(head, s, k);
      var login, logout := node.entry.value, pos.entry.value;
      if logout.kind == DEAD_PROCESS && logout.info.tty == login.info.tty &&
         login.info.logintime <= logout.info.logintime
      {
        FirstClosingAt(rs, i, rest, k);
        var info := login.info.(logouttime := logout.info.logintime);
        SetEntry(node, login.(info := info), head, s);
        calls := made + [info];
        if answer(calls) < 0 {
          stop := true;
          freed := ExitLoginList(head, s);
          return;
        }
        Delete(pos, head, s, k);
        left := s[..k] + s[k + 1..];
        freed := {node, pos};
        CarriesWithout(rs, s, rest, k);
        return;
      }
      pos, k := next, k + 1;
      next := pos.next;
    }
    if k < |s| {
      NextLink(head, s, k);
    }
    FirstClosingAt(rs, i, rest, k);
  }

  lemma CarriesWithout(rs: seq<Login>, s: seq<LoginNode>, rest: seq<nat>, k: nat)
    requires Carries(rs, s, rest) && k < |s|
    ensures Carries(rs, s[..k] + s[k + 1..], Without(rs, rest, k))
  {
  }

  /** A popped node stands for the first live record; the ring carries the others. */
  ghost predicate Popped(rs: seq<Login>, node: LoginNode, head: LoginNode, s: seq<LoginNode>, live: seq<nat>)
    reads node`entry, s`entry
  {
    && live != [] && Live(rs, live) && node != head && node !in s
    && node.entry == Some(rs[live[0]])
    && Carries(rs, s, live[1..])
  }

  /** list_pop_front on a ring that carries the live records. */
  method PopLogin(head: LoginNode, ghost rs: seq<Login>, ghost s: seq<LoginNode>, ghost live: seq<nat>)
    returns (node: Ring.Node?<Login>, ghost left: seq<LoginNode>)
    requires Valid(head, s) && Carries(rs, s, live)
    modifies head, s
    ensures Valid(head, left) && forall a :: 0 <= a < |left| ==> left[a] in s
    ensures node == null ==> live == [] && left == []
    ensures node != null ==> s != [] && node == s[0] && left == s[1..] && Popped(rs, node, head, left, live)
  {
    hide Valid, Linked, Distinct, Live;
    if s == [] {
      left := [];
    } else {
      LiveRest(rs, live);
      FirstApart(head, s);
      left := s[1..];
    }
    node := PopFront(head, s);
  }

  lemma LiveRest(rs: seq<Login>, live: seq<nat>)
    requires Live(rs, live) && live != []
    ensures Live(rs, live[1..]) && live[0] < |rs|
  {
  }

  /** What one turn of the outer loop does to the reports still to come. */
  lemma PairingStep(rs: seq<Login>, live: seq<nat>)
    requires Live(rs, live) && live != []
    ensures var i, rest := live[0], live[1..];
      var k := if IsLogin(rs, i) then FirstClosing(rs, i, rest) else |rest|;
      Reports(rs, Pairing(rs, live)) ==
        if k == |rest| then Reports(rs, Pairing(rs, rest))
        else [Closed(rs, (i, rest[k]))] + Reports(rs, Pairing(rs, Without(rs, rest, k)))
  {
    hide FirstClosing, Closes, Closed;
  }

  /** One turn of the outer loop, seen on the reports. */
  lemma Turn(infos: seq<LoginInfo>, answer: seq<LoginInfo> -> int, calls: seq<LoginInfo>,
             rs: seq<Login>, live: seq<nat>)
    requires Live(rs, live) && live != []
    requires Going(infos, Negative(answer), calls, Reports(rs, Pairing(rs, live)))
    ensures var i, rest := live[0], live[1..];
      if !IsLogin(rs, i) || FirstClosing(rs, i, rest) == |rest| then
        Going(infos, Negative(answer), calls, Reports(rs, Pairing(rs, rest)))
      else
        var k := FirstClosing(rs, i, rest);
        var next := calls + [Closed(rs, (i, rest[k]))];
        if answer(next) < 0 then CutAfter(infos, Negative(answer), next)
        else Going(infos, Negative(answer), next, Reports(rs, Pairing(rs, Without(rs, rest, k))))
  {
    hide FirstClosing, Closed, Reports, Pairing, Going, CutAfter;
    PairingStep(rs, live);
    var i, rest := live[0], live[1..];
    var k := FirstClosing(rs, i, rest);
    if IsLogin(rs, i) && k < |rest| {
      var info, coming := Closed(rs, (i, rest[k])), Reports(rs, Pairing(rs, Without(rs, rest, k)));
      Deliver(infos, Negative(answer), calls, info, coming);
    }
  }

  lemma NothingLeft(rs: seq<Login>)
    ensures Reports(rs, Pairing(rs, [])) == []
  {
  }

  /** The same turn, seen on the pairs. */
  lemma PairsTurn(rs: seq<Login>, live: seq<nat>, done: seq<(nat, nat)>)
    requires Live(rs, live) && live != [] && Pairs(rs) == done + Pairing(rs, live)
    ensures var i, rest := live[0], live[1..];
      var k := if IsLogin(rs, i) then FirstClosing(rs, i, rest) else |rest|;
      if k == |rest| then Pairs(rs) == done + Pairing(rs, rest)
      else
        && !IsLogin(rs, rest[k])
        && Pairs(rs) == done + ([(i, rest[k])] + Pairing(rs, Without(rs, rest, k)))
        && Pairs(rs) == (done + [(i, rest[k])]) + Pairing(rs, Without(rs, rest, k))
  {
    hide FirstClosing;
  }

  /**
    Between two turns: the calls made are the reports of the pairs done, none was answered
    negatively, the live records give the pairs to come, and the others' nodes are released.
   */
  ghost predicate Running(rs: seq<Login>, nodes: seq<LoginNode>, answer: seq<LoginInfo> -> int, calls: seq<LoginInfo>,
                          freed: set<LoginNode>, live: seq<nat>, done: seq<(nat, nat)>)
  {
    && Live(rs, live) && Different(nodes)
    && Going(Reports(rs, Pairs(rs)), Negative(answer), calls, Reports(rs, Pairing(rs, live)))
    && |done| == |calls| && Pairs(rs) == done + Pairing(rs, live)
    && (calls != [] ==> answer(calls) >= 0)
    && Released(rs, nodes, freed, live, done)
  }

  lemma RunStarts(rs: seq<Login>, head: LoginNode, nodes: seq<LoginNode>, answer: seq<LoginInfo> -> int)
    requires Valid(head, nodes) && Carries(rs, nodes, All(rs))
    ensures Running(rs, nodes, answer, [], {}, All(rs), []) && StandFor(nodes, nodes, All(rs))
  {
    hide Pairing, Going, Reports, Negative, Released, StandFor;
    Start(Reports(rs, Pairs(rs)), Negative(answer));
    NothingReleased(rs, nodes);
  }

  /** A logout at the front is freed. */
  lemma LogoutTurn(rs: seq<Login>, nodes: seq<LoginNode>, answer: seq<LoginInfo> -> int, calls: seq<LoginInfo>,
                   freed: set<LoginNode>, live: seq<nat>, done: seq<(nat, nat)>)
    requires Live(rs, live) && live != [] && !IsLogin(rs, live[0])
    requires Running(rs, nodes, answer, calls, freed, live, done)
    ensures |nodes| == |rs| && nodes[live[0]] !in freed
    ensures Running(rs, nodes, answer, calls, freed + {nodes[live[0]]}, live[1..], done)
  {
    hide Pairing, Going, CutAfter, Reports, Negative, Different, FirstClosing, Closed;
    Turn(Reports(rs, Pairs(rs)), answer, calls, rs, live);
    PairsTurn(rs, live, done);
    FreeLogout(rs, nodes, freed, live, done);
  }

  /** A login at the front that nothing closes is dropped. */
  lemma UnpairedTurn(rs: seq<Login>, nodes: seq<LoginNode>, answer: seq<LoginInfo> -> int, calls: seq<LoginInfo>,
                     freed: set<LoginNode>, live: seq<nat>, done: seq<(nat, nat)>)
    requires Live(rs, live) && live != [] && IsLogin(rs, live[0])
    requires FirstClosing(rs, live[0], live[1..]) == |live| - 1
    requires Running(rs, nodes, answer, calls, freed, live, done)
    ensures Running(rs, nodes, answer, calls, freed, live[1..], done)
  {
    hide Pairing, Going, CutAfter, Reports, Negative, Different, FirstClosing, Closed;
    Turn(Reports(rs, Pairs(rs)), answer, calls, rs, live);
    PairsTurn(rs, live, done);
    DropLogin(rs, nodes, freed, live, done);
  }

  /** A login at the front is reported with its logout, and both are freed. */
  lemma PairedTurn(rs: seq<Login>, nodes: seq<LoginNode>, answer: seq<LoginInfo> -> int, calls: seq<LoginInfo>,
                   freed: set<LoginNode>, live: seq<nat>, done: seq<(nat, nat)>, k: nat, next: seq<LoginInfo>)
    requires Live(rs, live) && live != [] && IsLogin(rs, live[0])
    requires k == FirstClosing(rs, live[0], live[1..]) < |live| - 1
    requires next == calls + [Closed(rs, (live[0], live[1..][k]))] && answer(next) >= 0
    requires Running(rs, nodes, answer, calls, freed, live, done)
    ensures |nodes| == |rs| && freed !! {nodes[live[0]], nodes[live[1..][k]]}
    ensures Running(rs, nodes, answer, next, freed + {nodes[live[0]], nodes[live[1..][k]]},
                    Without(rs, live[1..], k), done + [(live[0], live[1..][k])])
  {
    hide Pairing, Going, CutAfter, Reports, Negative, Different, FirstClosing, Closed, Without;
    Turn(Reports(rs, Pairs(rs)), answer, calls, rs, live);
    PairsTurn(rs, live, done);
    FreePair(rs, nodes, freed, live, done, k);
  }

  /** A negative answer ends the run; what is left in the ring is freed. */
  lemma LastTurn(rs: seq<Login>, nodes: seq<LoginNode>, answer: seq<LoginInfo> -> int, calls: seq<LoginInfo>,
                 freed: set<LoginNode>, live: seq<nat>, done: seq<(nat, nat)>, k: nat, next: seq<LoginInfo>,
                 s: seq<LoginNode>)
    requires Live(rs, live) && live != [] && IsLogin(rs, live[0])
    requires k == FirstClosing(rs, live[0], live[1..]) < |live| - 1
    requires next == calls + [Closed(rs, (live[0], live[1..][k]))] && answer(next) < 0
    requires StandFor(nodes, s, live[1..])
    requires Running(rs, nodes, answer, calls, freed, live, done)
    ensures freed !! Nodes(s)
    ensures CutAfter(Reports(rs, Pairs(rs)), Negative(answer), next)
    ensures FreedButLeaked(rs, nodes, freed + Nodes(s), |next|, true)
  {
    hide Pairing, Going, CutAfter, Reports, Negative, Different, FirstClosing, Closed, Without, FreedButLeaked,
         StandFor;
    Turn(Reports(rs, Pairs(rs)), answer, calls, rs, live);
    PairsTurn(rs, live, done);
    var rest := live[1..];
    RestReleased(rs, nodes, freed, live, done, s, rest[k], Pairing(rs, Without(rs, rest, k)));
  }

  lemma RunEnds(rs: seq<Login>, nodes: seq<LoginNode>, answer: seq<LoginInfo> -> int, calls: seq<LoginInfo>,
                freed: set<LoginNode>, done: seq<(nat, nat)>)
    requires Running(rs, nodes, answer, calls, freed, [], done)
    ensures CutAfter(Reports(rs, Pairs(rs)), Negative(answer), calls)
    ensures !(calls != [] && answer(calls) < 0) && FreedButLeaked(rs, nodes, freed, |calls|, false)
  {
    hide Going, CutAfter, Negative, Different, FreedButLeaked;
    NothingLeft(rs);
    End(Reports(rs, Pairs(rs)), Negative(answer), calls);
    AllReleased(rs, nodes, freed, done);
  }

  /**
    The outer loop of os_info_logout_tty: pop, pair, until the ring is empty or the callback
    stops it. No node is freed twice.
   */
  method PairAll(head: LoginNode, answer: seq<LoginInfo> -> int, ghost rs: seq<Login>, ghost s0: seq<LoginNode>)
    returns (calls: seq<LoginInfo>, ghost freed: set<LoginNode>)
    requires Valid(head, s0) && Carries(rs, s0, All(rs))
    modifies head, s0
    ensures CutAfter(Reports(rs, Pairs(rs)), Negative(answer), calls)
    ensures FreedButLeaked(rs, s0, freed, |calls|, calls != [] && answer(calls) < 0)
  {
    hide Valid, Carries, Pairing, FirstClosing, CutAfter, Closed, Reports, Without, Closes, Negative,
         StandFor, FreedButLeaked, Running;
    calls, freed := [], {};
    ghost var s, live, done, whole := s0, All(rs), [], s0;
    RunStarts(rs, head, s0, answer);
    var node;
    node, s := PopLogin(head, rs, s, live);
    while node != null
      invariant Valid(head, s) && forall a :: 0 <= a < |s| ==> s[a] in s0
      invariant node == null ==> live == [] && s == []
      invariant node != null ==> Popped(rs, node, head, s, live) && node in s0
      invariant node != null ==> whole != [] && node == whole[0] && s == whole[1..] && StandFor(s0, whole, live)
      invariant Running(rs, s0, answer, calls, freed, live, done)
      decreases |live|
    {
      ghost var i, rest, before := live[0], live[1..], calls;
      StandTail(s0, whole, live);
      if node.entry.value.kind != USER_PROCESS {
        LogoutTurn(rs, s0, answer, calls, freed, live, done);
        assert node !in freed;
        freed, live := freed + {node}, rest;
      } else {
        var stop;
        ghost var k, gone;
        calls, stop, s, k, gone := CloseSession(node, head, answer, calls, rs, i, s, rest);
        if stop {
          LastTurn(rs, s0, answer, before, freed, live, done, k, calls, whole[1..]);
          assert gone !! freed;
          freed := freed + gone;
          return;
        }
        if k == |rest| {
          UnpairedTurn(rs, s0, answer, calls, freed, live, done);
          live := rest;
        } else {
          PairedTurn(rs, s0, answer, before, freed, live, done, k, calls);
          StandWithout(rs, s0, whole[1..], rest, k);
          assert gone !! freed;
          freed, live, done := freed + gone, Without(rs, rest, k), done + [(i, rest[k])];
        }
      }
      whole := s;
      node, s := PopLogin(head, rs, s, live);
    }
    RunEnds(rs, s0, answer, calls, freed, done);
    ghost var gone := ExitLoginList(head, s);
    assert gone == {};
  }

  // ---------- The reports, on the file's records ----------

  /** The first n characters, or all. */
  function First(s: string, n: nat): string {
    if |s| <= n then s else s[..n]
  }

  /** A report of the login record a closed by the later logout record b. */
  ghost predicate Session(file: seq<Utmp>, a: nat, b: nat, info: LoginInfo) {
    && a < b < |file| && file[a].ut_type == 7 && file[b].ut_type == 8
    && info.tty == First(file[a].ut_line, 127) == First(file[b].ut_line, 127)
    && info.username == First(file[a].ut_user, 127) && info.hostname == First(file[a].ut_host, 255)
    && (0 <= file[a].tv_usec < 1000000 ==> info.logintime == file[a].tv_sec)
    && (0 <= file[b].tv_usec < 1000000 ==> info.logouttime == file[b].tv_sec)
    && info.logintime <= info.logouttime && info.pid == 0
  }

  /** A report of two of the file's records. */
  ghost predicate IsSession(file: seq<Utmp>, info: LoginInfo) {
    exists a: nat, b: nat :: Session(file, a, b, info)
  }

  lemma TruncateIsFirst(s: string, n: nat)
    requires n > 0
    ensures Truncate(s, n) == First(s, n - 1)
  {
  }

  lemma WholeSeconds(r: Utmp)
    requires 0 <= r.tv_usec < 1000000
    ensures Time(r) == r.tv_sec
  {
    SecondsTruncate(r.tv_usec);
  }

  lemma RecordsClose(file: seq<Utmp>, a: nat, b: nat, info: LoginInfo)
    requires a < b < |file|
    requires var x, y := FromRecord(file[a]), FromRecord(file[b]);
      && x.kind == USER_PROCESS && y.kind == DEAD_PROCESS && y.info.tty == x.info.tty
      && x.info.logintime <= y.info.logintime && info == x.info.(logouttime := y.info.logintime)
    ensures Session(file, a, b, info)
  {
    hide Truncate, Time, First;
    TruncateIsFirst(file[a].ut_line, 128);
    TruncateIsFirst(file[b].ut_line, 128);
    TruncateIsFirst(file[a].ut_user, 128);
    TruncateIsFirst(file[a].ut_host, 256);
    if 0 <= file[a].tv_usec < 1000000 {
      WholeSeconds(file[a]);
    }
    if 0 <= file[b].tv_usec < 1000000 {
      WholeSeconds(file[b]);
    }
  }

  /** Every report is a session of two of the file's records. */
  lemma ReportIsSession(file: seq<Utmp>, k: nat) returns (a: nat, b: nat)
    requires k < |Pairs(Entries(file))|
    ensures Session(file, a, b, Reports(Entries(file), Pairs(Entries(file)))[k])
  {
    hide Pairing, Entries, FromRecord, Session;
    var es := Entries(file);
    var at := EntriesInFileOrder(file);
    ReportsAreSessions(es, k);
    var (i, j) := Pairs(es)[k];
    a, b := at[i], at[j];
    RecordsClose(file, a, b, Reports(es, Pairs(es))[k]);
  }

  lemma CallsOnFile(file: seq<Utmp>, answer: seq<LoginInfo> -> int, calls: seq<LoginInfo>)
    requires CutAfter(Reports(Entries(file), Pairs(Entries(file))), Negative(answer), calls)
    ensures forall k :: 0 <= k < |calls| ==> IsSession(file, calls[k])
    ensures forall k :: 0 < k < |calls| ==> answer(calls[..k]) >= 0
    ensures |calls| < |Pairs(Entries(file))| ==> calls != [] && answer(calls) < 0
  {
    hide Pairing, Entries, Session, CutAfter;
    var all := Reports(Entries(file), Pairs(Entries(file)));
    CutMeans(all, Negative(answer), calls);
    forall k | 0 <= k < |calls| ensures IsSession(file, calls[k]) {
      var a, b := ReportIsSession(file, k);
      assert calls[k] == all[k];
    }
    forall k | 0 < k < |calls| ensures answer(calls[..k]) >= 0 {
      assert calls[..k] == all[..k] && !Negative(answer)(all[..k]);
    }
  }

  /** os_info_logout_tty; no file gives -1. `lost` are the entries whose nodes are never freed. */
  method LogoutTty(wtmp: Option<seq<Utmp>>, answer: seq<LoginInfo> -> int)
    returns (r: int, calls: seq<LoginInfo>, ghost lost: set<nat>)
    ensures wtmp.None? ==> r == -1 && calls == [] && lost == {}
    ensures wtmp.Some? ==> r == 0
    ensures wtmp.Some? ==>
      CutAfter(Reports(Entries(wtmp.value), Pairs(Entries(wtmp.value))), Negative(answer), calls)
    ensures wtmp.Some? ==> forall k :: 0 <= k < |calls| ==> IsSession(wtmp.value, calls[k])
    ensures forall k :: 0 < k < |calls| ==> answer(calls[..k]) >= 0
    ensures wtmp.Some? && |calls| < |Pairs(Entries(wtmp.value))| ==> calls != [] && answer(calls) < 0
    ensures wtmp.Some? ==>
      var es := Entries(wtmp.value);
      |calls| <= |Pairs(es)| && forall a: nat ::
        a in lost <==> a < |es| && Leaked(es, |calls|, calls != [] && answer(calls) < 0, a)
  {
    hide Leaked, Pairing, CutAfter, Reports, Entries, Valid, IsSession;
    if wtmp.None? {
      return -1, [], {};
    }
    var head := new Ring.Node<Login>(None);
    InitListHead(head);
    ghost var s := InitLoginList(wtmp.value, head);
    ghost var freed;
    calls, freed := PairAll(head, answer, Entries(wtmp.value), s);
    lost := set a: nat | a < |s| && s[a] !in freed;
    CallsOnFile(wtmp.value, answer, calls);
    r := 0;
  }

  /** Every report is a login's record with a terminal's later logout time, not before its login. */
  lemma ReportsAreSessions(rs: seq<Login>, k: nat)
    requires k < |Pairs(rs)|
    ensures var (i, j) := Pairs(rs)[k];
      && i < j < |rs| && rs[i].kind == USER_PROCESS && rs[j].kind == DEAD_PROCESS
      && rs[j].info.tty == rs[i].info.tty
      && rs[i].info.logintime <= Reports(rs, Pairs(rs))[k].logouttime == rs[j].info.logintime
      && Reports(rs, Pairs(rs))[k].(logouttime := rs[i].info.logouttime) == rs[i].info
  {
    hide Pairing, FirstClosing;
    PairsClose(rs, All(rs));
    assert Pairs(rs)[k] in Pairs(rs);
  }

  /** With no early stop and a chronological file, no injective choice of later logouts closes more logins. */
  lemma ReportsAreMost(file: seq<Utmp>, answer: seq<LoginInfo> -> int, calls: seq<LoginInfo>, m: map<nat, nat>)
    requires Chronological(file) && forall c :: answer(c) >= 0
    requires CutAfter(Reports(Entries(file), Pairs(Entries(file))), Negative(answer), calls)
    requires Assignment(Entries(file), All(Entries(file)), m)
    ensures |m| <= |calls|
  {
    hide Pairing, Assignment;
    var rs := Entries(file);
    EntriesInTimeOrder(file);
    assert LogoutsOrdered(rs);
    PairingIsLargest(rs, All(rs), m);
  }
}
