/** What the other modules share. */
module Wrappers {
  datatype Option<+T> = None | Some(value: T)
}

/** The states of a fcp_one_item iteration, from fcp_base.h. */
module LoopTypes {
  const LOOP_TYPE_START: nat := 0
  const LOOP_TYPE_CON: nat := 1
  const LOOP_TYPE_STOP: nat := 2
  const LOOP_TYPE_MAX: nat := 3
}

/**
  Deliveries that the receiver may end early. The receiver decides on everything delivered so
  far, so one that keeps state is covered.
 */
module EarlyStop {
  /** `got` is `all` cut after the first delivery that is the last one wanted. */
  ghost predicate CutAfter<T(!new)>(all: seq<T>, last: seq<T> -> bool, got: seq<T>) {
    && got <= all
    && (forall k :: 0 < k < |got| ==> !last(all[..k]))
    && (|got| < |all| ==> got != [] && last(got))
  }

  /** Nothing delivered so far was the last one wanted, and `coming` is still to come. */
  ghost predicate Going<T(!new)>(all: seq<T>, last: seq<T> -> bool, got: seq<T>, coming: seq<T>) {
    all == got + coming && forall k :: 0 < k <= |got| ==> !last(all[..k])
  }

  /** The first deliveries: none but perhaps the last ends the run, and the last does unless all were made. */
  lemma CutMeans<T(!new)>(all: seq<T>, last: seq<T> -> bool, got: seq<T>)
    ensures CutAfter(all, last, got) <==>
      |got| <= |all| && got == all[..|got|]
      && (forall k: nat :: 1 <= k < |got| ==> !last(all[..k]))
      && (|got| == |all| || (|got| >= 1 && last(all[..|got|])))
  {
    if got <= all {
      assert all[..|got|] == got;
    }
  }

  /** The cut is unique: the predicate leaves no choice. */
  lemma CutIsUnique<T(!new)>(all: seq<T>, last: seq<T> -> bool, x: seq<T>, y: seq<T>)
    requires CutAfter(all, last, x) && CutAfter(all, last, y)
    ensures x == y
  {
    assert x == all[..|x|] && y == all[..|y|];
  }

  lemma Start<T(!new)>(all: seq<T>, last: seq<T> -> bool)
    ensures Going(all, last, [], all)
  {
  }

  /** One more delivery either is the last one wanted or leaves the delivery going. */
  lemma Deliver<T(!new)>(all: seq<T>, last: seq<T> -> bool, got: seq<T>, x: T, coming: seq<T>)
    requires Going(all, last, got, [x] + coming)
    ensures if last(got + [x]) then CutAfter(all, last, got + [x]) else Going(all, last, got + [x], coming)
  {
    assert all == (got + [x]) + coming;
    assert all[..|got| + 1] == got + [x];
  }

  lemma End<T(!new)>(all: seq<T>, last: seq<T> -> bool, got: seq<T>)
    requires Going(all, last, got, [])
    ensures CutAfter(all, last, got)
  {
  }
}
