/**
  fcp_signal.c: the library's table of saved signal actions and its saved mask, kept beside the
  kernel's disposition table and the process's mask. Each call is a step; `ok` says whether
  the system call it makes succeeds.
 */
module Signals {
  const NSIG: int := 65
  const SA_RESTART: int := 0x1000_0000
  const SIGKILL: int := 9
  const SIGSTOP: int := 19
  const UNBLOCKABLE: set<int> := {SIGKILL, SIGSTOP}

  predicate IsSignal(sig: int) {
    1 <= sig < NSIG
  }

  const ALL_SIGNALS: set<int> := set s: int | 1 <= s < NSIG

  /** struct sigaction; a handler is a number. */
  datatype Action = Action(handler: int, flags: int, mask: set<int>)

  /** An action as the kernel keeps it: SIGKILL and SIGSTOP are silently dropped from its mask. */
  function Kept(a: Action): Action {
    a.(mask := a.mask - UNBLOCKABLE)
  }

  lemma KeptTwice(a: Action)
    ensures Kept(Kept(a)) == Kept(a)
  {
  }

  /** What is in force after sigutil_sig_add of a handler. */
  function Installed(handler: int): Action {
    Kept(Action(handler, SA_RESTART, ALL_SIGNALS))
  }

  // ---------- Saved actions ----------

  /** The saved actions of the signals marked inited, and the dispositions in force. */
  datatype Table = Table(saved: map<int, Action>, disp: map<int, Action>)

  ghost predicate Full(t: Table) {
    && t.disp.Keys == ALL_SIGNALS && t.saved.Keys <= ALL_SIGNALS
    && (forall sig | sig in t.disp :: Kept(t.disp[sig]) == t.disp[sig])
    && (forall sig | sig in t.saved :: Kept(t.saved[sig]) == t.saved[sig])
  }

  datatype Op =
    | Add(sig: int, handler: int, ok: bool)
    | Del(sig: int, ok: bool)
    | DelAll(refused: set<int>)

  function AddStep(t: Table, sig: int, handler: int, ok: bool): Table {
    if IsSignal(sig) && ok && sig in t.disp then
      Table(t.saved[sig := t.disp[sig]], t.disp[sig := Installed(handler)])
    else t
  }

  function DelStep(t: Table, sig: int, ok: bool): Table {
    if IsSignal(sig) && sig in t.saved && ok then Table(t.saved - {sig}, t.disp[sig := Kept(t.saved[sig])])
    else t
  }

  /** sig_del on each signal from `from` on. */
  function DelFrom(t: Table, from: int, refused: set<int>): Table
    decreases NSIG - from
  {
    if from >= NSIG then t else DelFrom(DelStep(t, from, from !in refused), from + 1, refused)
  }

  function Step(t: Table, op: Op): Table {
    match op
    case Add(sig, handler, ok) => AddStep(t, sig, handler, ok)
    case Del(sig, ok) => DelStep(t, sig, ok)
    case DelAll(refused) => DelFrom(t, 1, refused)
  }

  /** The calls of a run, the last one last. */
  function Run(t: Table, ops: seq<Op>): Table {
    if ops == [] then t else Step(Run(t, ops[..|ops| - 1]), ops[|ops| - 1])
  }

  /** The action a delete would bring back, or the one in force when none is saved. */
  function Underlying(t: Table, sig: int): Action
    requires sig in t.disp
  {
    if sig in t.saved then t.saved[sig] else t.disp[sig]
  }

  /** A second successful add of a signal that is still saved. */
  predicate Readds(t: Table, op: Op, sig: int) {
    op.Add? && op.sig == sig && op.ok && sig in t.saved
  }

  ghost predicate EverReadded(t: Table, ops: seq<Op>, sig: int) {
    exists k :: 0 <= k < |ops| && Readds(Run(t, ops[..k]), ops[k], sig)
  }

  /** The latest successful add of the signal. */
  ghost predicate LatestAdd(ops: seq<Op>, sig: int, a: nat) {
    && a < |ops| && ops[a].Add? && ops[a].sig == sig && ops[a].ok
    && forall i :: a < i < |ops| && ops[i].Add? && ops[i].sig == sig ==> !ops[i].ok
  }

  ghost predicate LatestReadd(t: Table, ops: seq<Op>, sig: int, k: nat) {
    && k < |ops| && Readds(Run(t, ops[..k]), ops[k], sig)
    && forall i :: k < i < |ops| ==> !Readds(Run(t, ops[..i]), ops[i], sig)
  }

  lemma {:induction false} DelFromKeeps(t: Table, from: int, refused: set<int>, sig: int)
    requires Full(t) && IsSignal(sig) && 1 <= from
    ensures Full(DelFrom(t, from, refused))
    ensures Underlying(DelFrom(t, from, refused), sig) == Underlying(t, sig)
    ensures sig < from ==> (sig in DelFrom(t, from, refused).saved <==> sig in t.saved)
    ensures sig >= from ==> (sig in DelFrom(t, from, refused).saved <==> sig in t.saved && sig in refused)
    ensures sig in t.saved && sig in DelFrom(t, from, refused).saved ==>
      DelFrom(t, from, refused).disp[sig] == t.disp[sig]
    decreases NSIG - from
  {
    if from < NSIG {
      DelFromKeeps(DelStep(t, from, from !in refused), from + 1, refused, sig);
    }
  }

  /** What one add does: the handler, the flag and the mask in force, the saved action, and nothing else. */
  lemma AddInForce(t: Table, sig: int, handler: int, ok: bool)
    requires Full(t)
    ensures var u := Step(t, Add(sig, handler, ok));
      if 1 <= sig <= 64 && ok then
        && sig in u.disp && u.disp[sig].handler == handler && u.disp[sig].flags == 0x1000_0000
        && (forall s :: s in u.disp[sig].mask <==> 1 <= s <= 64 && s != 9 && s != 19)
        && u.disp == t.disp[sig := u.disp[sig]] && u.saved == t.saved[sig := t.disp[sig]]
      else u == t
  {
  }

  /** What one delete does. */
  lemma DelInForce(t: Table, sig: int, ok: bool)
    requires Full(t)
    ensures 1 <= sig <= 64 && sig in t.saved && ok ==>
      && Step(t, Del(sig, ok)).disp == t.disp[sig := t.saved[sig]]
      && Step(t, Del(sig, ok)).saved == t.saved - {sig}
    ensures !(1 <= sig <= 64 && sig in t.saved && ok) ==> Step(t, Del(sig, ok)) == t
  {
  }

  /** A step changes a signal's underlying action only by adding it a second time. */
  lemma StepUnderlying(t: Table, op: Op, sig: int)
    requires Full(t) && IsSignal(sig)
    ensures Full(Step(t, op))
    ensures Underlying(Step(t, op), sig) == if Readds(t, op, sig) then t.disp[sig] else Underlying(t, sig)
  {
    if op.DelAll? {
      DelFromKeeps(t, 1, op.refused, sig);
    }
  }

  lemma {:induction false} RunFull(t: Table, ops: seq<Op>)
    requires Full(t)
    ensures Full(Run(t, ops))
  {
    if ops != [] {
      RunFull(t, ops[..|ops| - 1]);
      StepUnderlying(Run(t, ops[..|ops| - 1]), ops[|ops| - 1], 1);
    }
  }

  /** While a signal is saved, what is in force for it is what its latest add installed. */
  lemma {:induction false} SavedIsInstalled(t: Table, ops: seq<Op>, sig: int) returns (a: nat)
    requires Full(t) && t.saved == map[] && sig in Run(t, ops).saved
    ensures IsSignal(sig) && sig in Run(t, ops).disp
    ensures LatestAdd(ops, sig, a) && Run(t, ops).disp[sig] == Installed(ops[a].handler)
  {
    RunFull(t, ops);
    if ops != [] {
      var n := |ops| - 1;
      var u := Run(t, ops[..n]);
      RunFull(t, ops[..n]);
      if ops[n].Add? && ops[n].sig == sig && IsSignal(sig) && ops[n].ok {
        a := n;
      } else {
        if ops[n].DelAll? {
          DelFromKeeps(u, 1, ops[n].refused, sig);
        }
        a := SavedIsInstalled(t, ops[..n], sig);
        assert Run(t, ops).disp[sig] == u.disp[sig];
      }
    }
  }

  /** Without a second add of a saved signal, its slot, or else its disposition, is the original one. */
  lemma {:induction false} OriginalKept(t: Table, ops: seq<Op>, sig: int)
    requires Full(t) && t.saved == map[] && IsSignal(sig) && !EverReadded(t, ops, sig)
    ensures sig in Run(t, ops).disp && Underlying(Run(t, ops), sig) == t.disp[sig]
  {
    RunFull(t, ops);
    if ops != [] {
      var n := |ops| - 1;
      assert forall k :: 0 <= k < n ==> ops[..n][..k] == ops[..k];
      RunFull(t, ops[..n]);
      OriginalKept(t, ops[..n], sig);
      StepUnderlying(Run(t, ops[..n]), ops[n], sig);
    }
  }

  /**
    After a second add, the underlying action is one of the library's own for good: what was
    installed by the add before the latest second one.
   */
  lemma {:induction false} OriginalLost(t: Table, ops: seq<Op>, sig: int) returns (k: nat, a: nat)
    requires Full(t) && t.saved == map[] && IsSignal(sig) && EverReadded(t, ops, sig)
    ensures LatestReadd(t, ops, sig, k) && LatestAdd(ops[..k], sig, a)
    ensures sig in Run(t, ops).disp && Underlying(Run(t, ops), sig) == Installed(ops[a].handler)
  {
    hide Step;
    var n := |ops| - 1;
    var u := Run(t, ops[..n]);
    RunFull(t, ops[..n]);
    StepUnderlying(u, ops[n], sig);
    if Readds(u, ops[n], sig) {
      k := n;
      a := SavedIsInstalled(t, ops[..n], sig);
    } else {
      ReaddedBefore(t, ops, sig);
      k, a := OriginalLost(t, ops[..n], sig);
      LatestStays(t, ops, sig, k);
    }
  }

  lemma LatestStays(t: Table, ops: seq<Op>, sig: int, k: nat)
    requires ops != [] && LatestReadd(t, ops[..|ops| - 1], sig, k)
    requires !Readds(Run(t, ops[..|ops| - 1]), ops[|ops| - 1], sig)
    ensures LatestReadd(t, ops, sig, k) && ops[..|ops| - 1][..k] == ops[..k]
  {
    hide Run;
    assert forall i :: 0 <= i < |ops| ==> ops[..|ops| - 1][..i] == ops[..i];
  }

  lemma ReaddedBefore(t: Table, ops: seq<Op>, sig: int)
    requires EverReadded(t, ops, sig) && !Readds(Run(t, ops[..|ops| - 1]), ops[|ops| - 1], sig)
    ensures EverReadded(t, ops[..|ops| - 1], sig)
  {
    hide Run;
    var n := |ops| - 1;
    var k :| 0 <= k < |ops| && Readds(Run(t, ops[..k]), ops[k], sig);
    assert k < n && ops[..n][..k] == ops[..k] && ops[..n][k] == ops[k];
  }

  /**
    sigutil_sig_delall after any run gives a signal back its original action exactly when the run
    never added it a second time while it was saved, or the original is what the add before the
    latest second one installed.
   */
  lemma DelAllRestores(t: Table, ops: seq<Op>, sig: int) returns (k: nat, a: nat)
    requires Full(t) && t.saved == map[] && IsSignal(sig)
    ensures EverReadded(t, ops, sig) ==> LatestReadd(t, ops, sig, k) && LatestAdd(ops[..k], sig, a)
    ensures var end := Run(t, ops + [DelAll({})]);
      && end.saved == map[] && sig in end.disp
      && (end.disp[sig] == t.disp[sig] <==>
           !EverReadded(t, ops, sig) || t.disp[sig] == Installed(ops[a].handler))
  {
    hide LatestReadd;
    var u, end := Run(t, ops), Run(t, ops + [DelAll({})]);
    assert (ops + [DelAll({})])[..|ops|] == ops;
    RunFull(t, ops);
    DelFromKeeps(u, 1, {}, sig);
    forall s | IsSignal(s) ensures s !in end.saved {
      DelFromKeeps(u, 1, {}, s);
    }
    if EverReadded(t, ops, sig) {
      k, a := OriginalLost(t, ops, sig);
    } else {
      k, a := 0, 0;
      OriginalKept(t, ops, sig);
    }
  }

  /** Two adds and delete-all: the first handler stays in force. */
  lemma SecondAddLoses(t: Table, sig: int, h: int, g: int)
    requires Full(t) && t.saved == map[] && IsSignal(sig)
    ensures var end := Run(t, [Add(sig, h, true), Add(sig, g, true), DelAll({})]);
      sig in end.disp && end.disp[sig] == Installed(h)
  {
    var ops := [Add(sig, h, true), Add(sig, g, true)];
    assert ops[..1] == [Add(sig, h, true)] && ops[..1][..0] == [] && ops + [DelAll({})] == [ops[0], ops[1], DelAll({})];
    assert Readds(Run(t, ops[..1]), ops[1], sig);
    var k, a := OriginalLost(t, ops, sig);
    DelFromKeeps(Run(t, ops), 1, {}, sig);
    assert (ops + [DelAll({})])[..2] == ops;
  }

  /** A saved slot holds what the latest successful add of the signal replaced. */
  lemma {:induction false} SlotHoldsReplaced(t: Table, ops: seq<Op>, sig: int) returns (k: nat)
    requires Full(t) && t.saved == map[] && sig in Run(t, ops).saved
    ensures LatestAdd(ops, sig, k)
    ensures sig in Run(t, ops[..k]).disp && Run(t, ops).saved[sig] == Run(t, ops[..k]).disp[sig]
  {
    var n := |ops| - 1;
    var u := Run(t, ops[..n]);
    RunFull(t, ops[..n]);
    RunFull(t, ops);
    if ops[n].Add? && ops[n].sig == sig && ops[n].ok {
      k := n;
    } else {
      if ops[n].DelAll? {
        DelFromKeeps(u, 1, ops[n].refused, sig);
      }
      k := SlotHoldsReplaced(t, ops[..n], sig);
      assert ops[..n][..k] == ops[..k];
      StepUnderlying(u, ops[n], sig);
    }
  }

  // ---------- The saved mask ----------

  /** The library's mask (inited and members) and the process's mask. */
  datatype Masks = Masks(inited: bool, lib: set<int>, process: set<int>)

  datatype MaskOp =
    | Block(sig: int, added: bool, ok: bool)
    | Unblock(sig: int, unblocked: bool, removed: bool, reblocked: bool)

  /** sigprocmask(SIG_BLOCK, ...): SIGKILL and SIGSTOP are silently left out. */
  function Blocked(process: set<int>, s: set<int>): set<int> {
    process + (s - UNBLOCKABLE)
  }

  /** `added` says whether sigaddset takes the signal: the C library may keep some to itself. */
  function BlockStep(m: Masks, sig: int, added: bool, ok: bool): Masks {
    if !IsSignal(sig) then m
    else
      var lib := if m.inited then m.lib else {};
      if sig in lib || !added then Masks(true, lib, m.process)
      else Masks(true, lib + {sig}, if ok then Blocked(m.process, lib + {sig}) else m.process)
  }

  /**
    The whole library mask is unblocked, and what is left of it blocked again; when sigdelset
    refuses the signal, that is all of it.
   */
  function UnblockStep(m: Masks, sig: int, unblocked: bool, removed: bool, reblocked: bool): Masks {
    if !IsSignal(sig) || !m.inited || sig !in m.lib || !unblocked then m
    else
      var rest := if removed then m.lib - {sig} else m.lib;
      Masks(true, rest, if reblocked then Blocked(m.process - m.lib, rest) else m.process - m.lib)
  }

  function MaskStep(m: Masks, op: MaskOp): Masks {
    match op
    case Block(sig, added, ok) => BlockStep(m, sig, added, ok)
    case Unblock(sig, unblocked, removed, reblocked) => UnblockStep(m, sig, unblocked, removed, reblocked)
  }

  function MaskRun(m: Masks, ops: seq<MaskOp>): Masks {
    if ops == [] then m else MaskStep(MaskRun(m, ops[..|ops| - 1]), ops[|ops| - 1])
  }

  /** The kernel blocks what it is asked to; anything else may fail. */
  predicate Blocks(op: MaskOp) {
    match op
    case Block(_, _, ok) => ok
    case Unblock(_, unblocked, _, reblocked) => unblocked ==> reblocked
  }

  /** The library mask at each call that really unblocked: those signals' own blocking is gone. */
  function Wiped(m: Masks, ops: seq<MaskOp>): set<int> {
    if ops == [] then {}
    else
      var n := |ops| - 1;
      var u := MaskRun(m, ops[..n]);
      var unblocks := ops[n].Unblock? && IsSignal(ops[n].sig) && u.inited && ops[n].sig in u.lib && ops[n].unblocked;
      Wiped(m, ops[..n]) + (if unblocks then u.lib else {})
  }

  /** Every signal a run ever asked to block. */
  function EverBlocked(ops: seq<MaskOp>): set<int> {
    set k | 0 <= k < |ops| && ops[k].Block? && IsSignal(ops[k].sig) :: ops[k].sig
  }

  /** Asked for and taken by call k, and not let go by a later one. */
  ghost predicate HeldSince(ops: seq<MaskOp>, s: int, k: nat) {
    && k < |ops| && ops[k].Block? && ops[k].sig == s && ops[k].added && 1 <= s <= 64
    && forall i :: k < i < |ops| && ops[i].Unblock? && ops[i].sig == s ==> !(ops[i].unblocked && ops[i].removed)
  }

  /** One call changes the library mask only at its own signal. */
  lemma LibStep(m: Masks, op: MaskOp, s: int)
    requires !m.inited ==> m.lib == {}
    ensures s in MaskStep(m, op).lib <==>
      if op.sig != s || !(1 <= s <= 64) then s in m.lib
      else if op.Block? then s in m.lib || op.added
      else s in m.lib && !(op.unblocked && op.removed)
    ensures !MaskStep(m, op).inited ==> MaskStep(m, op).lib == {}
  {
  }

  /** The library mask after a run: the signals taken by some block and not let go by a later unblock. */
  lemma {:induction false} LibAfterRun(m: Masks, ops: seq<MaskOp>, s: int)
    requires !m.inited && m.lib == {}
    ensures s in MaskRun(m, ops).lib <==> exists k :: HeldSince(ops, s, k)
    ensures !MaskRun(m, ops).inited ==> MaskRun(m, ops).lib == {}
  {
    if ops != [] {
      var n := |ops| - 1;
      LibAfterRun(m, ops[..n], s);
      LibStep(MaskRun(m, ops[..n]), ops[n], s);
      HeldStep(ops, s);
    }
  }

  lemma HeldStep(ops: seq<MaskOp>, s: int)
    requires ops != []
    ensures var n := |ops| - 1;
      (exists k :: HeldSince(ops, s, k)) <==>
        if ops[n].sig != s || !(1 <= s <= 64) then exists k :: HeldSince(ops[..n], s, k)
        else if ops[n].Block? then (exists k :: HeldSince(ops[..n], s, k)) || ops[n].added
        else (exists k :: HeldSince(ops[..n], s, k)) && !(ops[n].unblocked && ops[n].removed)
  {
    var n := |ops| - 1;
    if k: nat :| HeldSince(ops, s, k) && k < n {
      assert HeldSince(ops[..n], s, k);
    }
    if k: nat :| HeldSince(ops[..n], s, k) {
      assert forall i :: 0 <= i < n ==> ops[..n][i] == ops[i];
      assert ops[n].sig != s || ops[n].Block? || !(ops[n].unblocked && ops[n].removed) ==> HeldSince(ops, s, k);
    }
    assert ops[n].Block? && ops[n].sig == s && ops[n].added && 1 <= s <= 64 ==> HeldSince(ops, s, n);
  }

  /** Before the first call: no library mask, and a process mask as the kernel keeps it. */
  ghost predicate Fresh(m: Masks) {
    !m.inited && m.lib == {} && m.process !! UNBLOCKABLE
  }

  /** The process mask after a run: the original one but for the wiped signals, and the library's. */
  lemma {:induction false} MaskAfterRun(m: Masks, ops: seq<MaskOp>)
    requires Fresh(m) && forall op | op in ops :: Blocks(op)
    ensures var u := MaskRun(m, ops);
      && u.process == (m.process - Wiped(m, ops)) + (u.lib - UNBLOCKABLE)
      && (!u.inited ==> u.lib == {})
      && u.lib <= EverBlocked(ops) && Wiped(m, ops) <= EverBlocked(ops)
  {
    if ops != [] {
      var n := |ops| - 1;
      MaskAfterRun(m, ops[..n]);
      assert forall k :: 0 <= k < n ==> ops[..n][k] == ops[k];
      assert EverBlocked(ops[..n]) <= EverBlocked(ops);
      assert Blocks(ops[n]);
    }
  }

  /** The library's signals are blocked, nothing else is added, and other signals are as they were. */
  lemma MaskBounds(m: Masks, ops: seq<MaskOp>)
    requires Fresh(m) && forall op | op in ops :: Blocks(op)
    ensures var u := MaskRun(m, ops);
      && u.lib - UNBLOCKABLE <= u.process <= m.process + u.lib
      && forall s | s !in EverBlocked(ops) :: s in u.process <==> s in m.process
  {
    MaskAfterRun(m, ops);
  }

  /**
    The process mask is the original one plus the library's exactly when no signal that was
    blocked from the start has been wiped by an unblock and not been blocked again.
   */
  lemma MaskExact(m: Masks, ops: seq<MaskOp>)
    requires Fresh(m) && forall op | op in ops :: Blocks(op)
    ensures var u := MaskRun(m, ops);
      u.process == m.process + (u.lib - UNBLOCKABLE) <==> m.process * Wiped(m, ops) <= u.lib
    ensures m.process !! EverBlocked(ops) ==>
      MaskRun(m, ops).process == m.process + (MaskRun(m, ops).lib - UNBLOCKABLE)
  {
    MaskAfterRun(m, ops);
    var u := MaskRun(m, ops);
    forall s | s in m.process && s in Wiped(m, ops) ensures s in u.process <==> s in u.lib {
      assert s !in UNBLOCKABLE;
    }
    if u.process == m.process + (u.lib - UNBLOCKABLE) {
      assert forall s | s in m.process * Wiped(m, ops) :: s in u.process;
    }
  }

  /** What one call does to the process's mask, also when the system calls fail. */
  lemma ProcessStep(m: Masks, op: MaskOp, s: int)
    requires !m.inited ==> m.lib == {}
    ensures var valid := 1 <= op.sig <= 64;
      s in MaskStep(m, op).process <==>
        if op.Block? then
          s in m.process ||
          (valid && op.sig !in m.lib && op.added && op.ok && (s in m.lib || s == op.sig) && s != 9 && s != 19)
        else if valid && op.sig in m.lib && op.unblocked then
          (s in m.process && s !in m.lib) ||
          (op.reblocked && s in m.lib && !(op.removed && s == op.sig) && s != 9 && s != 19)
        else s in m.process
  {
  }

  /** A signal taken by some block and not let go since is blocked, whatever was done to the others. */
  lemma HeldIsBlocked(m: Masks, ops: seq<MaskOp>, s: int, k: nat)
    requires Fresh(m) && (forall op | op in ops :: Blocks(op)) && HeldSince(ops, s, k) && s != 9 && s != 19
    ensures s in MaskRun(m, ops).lib && s in MaskRun(m, ops).process
  {
    LibAfterRun(m, ops, s);
    MaskAfterRun(m, ops);
  }

  /** A signal the process had blocked itself is not blocked any more after a block and an unblock. */
  lemma UnblockLoses(m: Masks, sig: int)
    requires Fresh(m) && IsSignal(sig) && sig in m.process
    ensures MaskRun(m, [Block(sig, true, true), Unblock(sig, true, true, true)])
         == Masks(true, {}, m.process - {sig})
  {
    var ops := [Block(sig, true, true), Unblock(sig, true, true, true)];
    assert ops[..1] == [ops[0]] && ops[..1][..0] == [];
    assert MaskRun(m, ops[..1]) == Masks(true, {sig}, m.process);
  }

  // ---------- The library's calls ----------

  /** The kernel's side: a disposition for each signal and the process's mask. */
  class Kernel {
    var disp: map<int, Action>
    var mask: set<int>

    constructor (disp: map<int, Action>, mask: set<int>)
      ensures this.disp == disp && this.mask == mask
    {
      this.disp, this.mask := disp, mask;
    }

    /** sigaction(sig, act, old). */
    method SigAction(sig: int, act: Action, ok: bool) returns (r: int, old_act: Action)
      requires sig in disp
      modifies this`disp
      ensures r == if ok then 0 else -1
      ensures disp == if ok then old(disp)[sig := Kept(act)] else old(disp)
      ensures ok ==> old_act == old(disp)[sig]
    {
      old_act := disp[sig];
      if ok {
        disp := disp[sig := Kept(act)];
        r := 0;
      } else {
        r := -1;
      }
    }

    method SigProcMask(block: bool, s: set<int>, ok: bool) returns (r: int)
      modifies this`mask
      ensures r == if ok then 0 else -1
      ensures mask == if !ok then old(mask) else if block then Blocked(old(mask), s) else old(mask) - s
    {
      if ok {
        mask := if block then Blocked(mask, s) else mask - s;
        r := 0;
      } else {
        r := -1;
      }
    }
  }

  datatype SignalSave = SignalSave(inited: bool, oldsig: Action)

  /** The two globals of fcp_signal.c. */
  class SignalUtil {
    const kernel: Kernel
    const oldsig: array<SignalSave>
    var maskInited: bool
    var promasksig: set<int>

    ghost predicate Valid()
      reads this, kernel, oldsig
    {
      && oldsig.Length == NSIG && kernel.disp.Keys == ALL_SIGNALS
      && (forall sig | sig in kernel.disp :: Kept(kernel.disp[sig]) == kernel.disp[sig])
      && (forall i | 0 <= i < NSIG && oldsig[i].inited :: Kept(oldsig[i].oldsig) == oldsig[i].oldsig)
    }

    ghost function State(): (t: Table)
      requires Valid()
      reads this, kernel, oldsig
      ensures Full(t)
    {
      Table(map sig | sig in ALL_SIGNALS && oldsig[sig].inited :: oldsig[sig].oldsig, kernel.disp)
    }

    ghost function MaskState(): Masks
      reads this, kernel
    {
      Masks(maskInited, promasksig, kernel.mask)
    }

    /** The zeroed globals. */
    constructor (k: Kernel)
      requires k.disp.Keys == ALL_SIGNALS && forall sig | sig in k.disp :: Kept(k.disp[sig]) == k.disp[sig]
      ensures Valid() && kernel == k && fresh(oldsig)
      ensures State() == Table(map[], k.disp) && MaskState() == Masks(false, {}, k.mask)
    {
      kernel := k;
      oldsig := new SignalSave[NSIG](_ => SignalSave(false, Action(0, 0, {})));
      maskInited, promasksig := false, {};
      new;
      assert State().saved.Keys == {};
    }

    method SigAdd(sig: int, handler: int, ok: bool) returns (r: int)
      requires Valid()
      modifies kernel`disp, oldsig
      ensures Valid() && State() == AddStep(old(State()), sig, handler, ok)
      ensures r == if IsSignal(sig) && ok then 0 else -1
    {
      hide Kept;
      if sig < 1 || sig >= NSIG {
        return -1;
      }
      KeptTwice(Action(handler, SA_RESTART, ALL_SIGNALS));
      var sa := Action(handler, SA_RESTART, ALL_SIGNALS);
      var res, old_act := kernel.SigAction(sig, sa, ok);
      if res < 0 {
        return -1;
      }
      oldsig[sig] := SignalSave(true, old_act);
      assert forall s | s in ALL_SIGNALS && s != sig :: oldsig[s] == old(oldsig[s]);
      r := 0;
    }

    method SigDel(sig: int, ok: bool) returns (r: int)
      requires Valid()
      modifies kernel`disp, oldsig
      ensures Valid() && State() == DelStep(old(State()), sig, ok)
      ensures r == if IsSignal(sig) && (sig in old(State()).saved ==> ok) then 0 else -1
    {
      hide Kept;
      if sig < 1 || sig >= NSIG {
        return -1;
      }
      if !oldsig[sig].inited {
        return 0;
      }
      var res, _ := kernel.SigAction(sig, oldsig[sig].oldsig, ok);
      if res < 0 {
        return -1;
      }
      oldsig[sig] := oldsig[sig].(inited := false);
      r := 0;
    }

    /** A failing delete does not stop the loop. */
    method SigDelAll(refused: set<int>) returns (r: int)
      requires Valid()
      modifies kernel`disp, oldsig
      ensures Valid() && State() == DelFrom(old(State()), 1, refused)
      ensures r == 0
    {
      var i := 1;
      while i < NSIG
        invariant 1 <= i <= NSIG && Valid()
        invariant DelFrom(State(), i, refused) == old(DelFrom(State(), 1, refused))
      {
        var _ := SigDel(i, i !in refused);
        i := i + 1;
      }
      r := 0;
    }

    method BlockSig(signum: int, added: bool, ok: bool) returns (r: int)
      requires Valid()
      modifies this, kernel`mask
      ensures Valid() && MaskState() == BlockStep(old(MaskState()), signum, added, ok)
      ensures r == -1 <==> !IsSignal(signum) || (!(added && ok) && !(old(maskInited) && signum in old(promasksig)))
      ensures r == 0 || r == -1
    {
      if signum < 1 || signum >= NSIG {
        return -1;
      }
      if !maskInited {
        promasksig := {};
        maskInited := true;
      }
      if signum in promasksig {
        return 0;
      }
      if !added {
        return -1;
      }
      promasksig := promasksig + {signum};
      r := kernel.SigProcMask(true, promasksig, ok);
    }

    method UnblockSig(signum: int, unblocked: bool, removed: bool, reblocked: bool) returns (r: int)
      requires Valid()
      modifies this, kernel`mask
      ensures Valid() && MaskState() == UnblockStep(old(MaskState()), signum, unblocked, removed, reblocked)
      ensures r == 0 || r == -1
      ensures r == 0 <==>
        (IsSignal(signum) && old(maskInited) && (signum in old(promasksig) ==> unblocked && removed && reblocked))
    {
      if signum < 1 || signum >= NSIG {
        return -1;
      }
      if !maskInited {
        return -1;
      }
      if signum !in promasksig {
        return 0;
      }
      var res := kernel.SigProcMask(false, promasksig, unblocked);
      if res != 0 {
        return -1;
      }
      var ret := 0;
      if removed {
        promasksig := promasksig - {signum};
      } else {
        ret := -1;
      }
      res := kernel.SigProcMask(true, promasksig, reblocked);
      if res != 0 {
        return -1;
      }
      r := ret;
    }
  }
}
