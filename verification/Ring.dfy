/**
  The circular doubly linked list of list.h. A ring is a head followed by the nodes of a
  sequence and the head again; every operation is tied to an operation on that sequence.
  container_of is modelled by letting a node carry its entry; a head carries none.
 */
module Ring {
  import opened Wrappers

  class Node<T> {
    var prev: Node?<T>
    var next: Node?<T>
    var entry: Option<T>

    constructor (e: Option<T>)
      ensures entry == e && next == null && prev == null
    {
      entry, next, prev := e, null, null;
    }
  }

  /** Once around: the head, the nodes, the head. */
  ghost function Around<T>(head: Node<T>, s: seq<Node<T>>): (c: seq<Node<T>>)
    ensures |c| == |s| + 2
  {
    [head] + s + [head]
  }

  ghost predicate Distinct<T>(head: Node<T>, s: seq<Node<T>>) {
    (forall i :: 0 <= i < |s| ==> s[i] != head) && (forall i, j :: 0 <= i < j < |s| ==> s[i] != s[j])
  }

  /** next and prev are mutually inverse all the way around. */
  ghost predicate Linked<T>(c: seq<Node<T>>)
    reads c
  {
    && (forall i {:trigger c[i].next} :: 0 <= i < |c| - 1 ==> c[i].next == c[i + 1])
    && (forall i {:trigger c[i].prev} :: 1 <= i < |c| ==> c[i].prev == c[i - 1])
  }

  ghost predicate Valid<T>(head: Node<T>, s: seq<Node<T>>)
    reads Around(head, s)
  {
    Distinct(head, s) && Linked(Around(head, s))
  }

  /** A ring determines its nodes: the sequence is no more than a name for the links. */
  lemma {:induction false} RingDeterminesNodes<T>(head: Node<T>, s: seq<Node<T>>, t: seq<Node<T>>)
    requires Valid(head, s) && Valid(head, t)
    ensures s == t
  {
    var c, d := Around(head, s), Around(head, t);
    var n := 0;
    while n < |s| && n < |t|
      invariant n <= |s| && n <= |t|
      invariant c[..n + 1] == d[..n + 1]
    {
      assert c[n].next == c[n + 1] && d[n].next == d[n + 1];
      n := n + 1;
    }
    assert c[n].next == c[n + 1] && d[n].next == d[n + 1];
    assert n == |s| && n == |t|;
    assert s == c[1..n + 1] && t == d[1..n + 1];
  }

  method InitListHead<T>(head: Node<T>)
    modifies head
    ensures Valid(head, [])
    ensures head.entry == old(head.entry)
  {
    head.next := head;
    head.prev := head;
  }

  /** Writing a record through container_of leaves every link alone. */
  method SetEntry<T>(node: Node<T>, e: T, ghost head: Node<T>, ghost s: seq<Node<T>>)
    requires Valid(head, s)
    modifies node`entry
    ensures node.entry == Some(e) && Valid(head, s)
  {
    node.entry := Some(e);
  }

  /** __list_add: link a node between two neighbours, the k-th place of the ring. */
  method AddBetween<T>(node: Node<T>, prev: Node<T>, next: Node<T>,
                       ghost head: Node<T>, ghost s: seq<Node<T>>, ghost k: nat)
    requires Valid(head, s) && node != head && node !in s
    requires k <= |s| && prev == Around(head, s)[k] && next == Around(head, s)[k + 1]
    modifies node`prev, node`next, prev`next, next`prev
    ensures Valid(head, s[..k] + [node] + s[k..])
  {
    ghost var c := Around(head, s);
    next.prev := node;
    node.next := next;
    node.prev := prev;
    prev.next := node;
    ghost var d := Around(head, s[..k] + [node] + s[k..]);
    assert d == c[..k + 1] + [node] + c[k + 1..];
    forall i | 0 <= i < |d| - 1 ensures d[i].next == d[i + 1] && d[i + 1].prev == d[i] {
      if i < k {
        assert d[i] == c[i] && d[i + 1] == c[i + 1];
      } else if i > k + 1 {
        assert d[i] == c[i - 1] && d[i + 1] == c[i];
      }
    }
  }

  /** list_add_tail appends. */
  method AddTail<T>(node: Node<T>, head: Node<T>, ghost s: seq<Node<T>>)
    requires Valid(head, s) && node != head && node !in s
    modifies node`prev, node`next, head`prev, Around(head, s)`next
    ensures Valid(head, s + [node])
  {
    assert Around(head, s)[|s| + 1].prev == Around(head, s)[|s|];
    AddBetween(node, head.prev, head, head, s, |s|);
    assert s[..|s|] + [node] + s[|s|..] == s + [node];
  }

  /** list_add prepends. */
  method AddFront<T>(node: Node<T>, head: Node<T>, ghost s: seq<Node<T>>)
    requires Valid(head, s) && node != head && node !in s
    modifies node`prev, node`next, head`next, Around(head, s)`prev
    ensures Valid(head, [node] + s)
  {
    assert Around(head, s)[0].next == Around(head, s)[1];
    AddBetween(node, head, head.next, head, s, 0);
    assert s[..0] + [node] + s[0..] == [node] + s;
  }

  /** list_del removes one place of the ring; the removed node keeps its own links. */
  method Delete<T>(p: Node<T>, ghost head: Node<T>, ghost s: seq<Node<T>>, ghost k: nat)
    requires Valid(head, s) && k < |s| && p == s[k]
    modifies Around(head, s)`next, Around(head, s)`prev
    ensures Valid(head, s[..k] + s[k + 1..])
    ensures p.next == old(p.next) && p.prev == old(p.prev)
  {
    ghost var c := Around(head, s);
    assert c[k + 1] == p;
    p.prev.next := p.next;
    p.next.prev := p.prev;
    ghost var d := Around(head, s[..k] + s[k + 1..]);
    assert d == c[..k + 1] + c[k + 2..];
    forall i | 0 <= i < |d| - 1 ensures d[i].next == d[i + 1] && d[i + 1].prev == d[i] {
      if i < k {
        assert d[i] == c[i] && d[i + 1] == c[i + 1];
      } else if i > k {
        assert d[i] == c[i + 1] && d[i + 1] == c[i + 2];
      } else {
        assert d[i] == c[k] && d[i + 1] == c[k + 2];
      }
    }
  }

  /** list_replace substitutes one node. */
  method Replace<T>(old_node: Node<T>, node: Node<T>, ghost head: Node<T>, ghost s: seq<Node<T>>, ghost k: nat)
    requires Valid(head, s) && k < |s| && old_node == s[k] && node != head && node !in s
    modifies node`prev, node`next, Around(head, s)`next, Around(head, s)`prev
    ensures Valid(head, s[k := node])
  {
    ghost var c := Around(head, s);
    assert c[k + 1] == old_node;
    node.next := old_node.next;
    node.next.prev := node;
    node.prev := old_node.prev;
    node.prev.next := node;
    ghost var d := Around(head, s[k := node]);
    assert d == c[k + 1 := node];
    forall i | 0 <= i < |d| - 1 ensures d[i].next == d[i + 1] && d[i + 1].prev == d[i] {
      if i < k || i > k + 1 {
        assert d[i] == c[i] && d[i + 1] == c[i + 1];
      }
    }
  }

  lemma FirstLink<T>(head: Node<T>, s: seq<Node<T>>)
    requires Valid(head, s)
    ensures head.next == if s == [] then head else s[0]
    ensures s != [] ==> s[0] != head
  {
    assert Around(head, s)[0].next == Around(head, s)[1];
  }

  lemma FirstApart<T>(head: Node<T>, s: seq<Node<T>>)
    requires Valid(head, s) && s != []
    ensures s[0] != head && s[0] !in s[1..]
  {
  }

  lemma NextLink<T>(head: Node<T>, s: seq<Node<T>>, k: nat)
    requires Valid(head, s) && k < |s|
    ensures s[k] != head && s[k].next == if k + 1 < |s| then s[k + 1] else head
  {
    assert Around(head, s)[k + 1].next == Around(head, s)[k + 2];
  }

  method Empty<T>(head: Node<T>, ghost s: seq<Node<T>>) returns (b: bool)
    requires Valid(head, s)
    ensures b <==> s == []
  {
    FirstLink(head, s);
    b := head.next == head;
  }

  /** list_pop_front takes the first node, or returns null on an empty ring. */
  method PopFront<T>(head: Node<T>, ghost s: seq<Node<T>>) returns (pos: Node?<T>)
    requires Valid(head, s)
    modifies Around(head, s)`next, Around(head, s)`prev
    ensures s == [] ==> pos == null && Valid(head, [])
    ensures s != [] ==> pos == s[0] && Valid(head, s[1..])
  {
    hide Valid, Linked, Distinct;
    FirstLink(head, s);
    var empty := Empty(head, s);
    if empty {
      return null;
    }
    pos := head.next;
    Delete(pos, head, s, 0);
    assert s[..0] + s[1..] == s[1..];
  }

  method Front<T>(head: Node<T>, ghost s: seq<Node<T>>) returns (pos: Node?<T>)
    requires Valid(head, s)
    ensures pos == if s == [] then null else s[0]
  {
    hide Valid, Linked, Distinct;
    FirstLink(head, s);
    var empty := Empty(head, s);
    if empty {
      return null;
    }
    pos := head.next;
  }

  /** list_size walks the ring once. */
  method Size<T>(head: Node<T>, ghost s: seq<Node<T>>) returns (sum: nat)
    requires Valid(head, s)
    ensures sum == |s|
  {
    ghost var c := Around(head, s);
    sum := 0;
    assert c[0].next == c[1];
    var pos := head.next;
    var next := pos.next;
    while pos != head
      invariant sum <= |s| && pos == c[sum + 1]
      invariant next == pos.next
      decreases |s| - sum
    {
      assert c[sum + 1].next == c[sum + 2];
      sum := sum + 1;
      pos := next;
      next := pos.next;
    }
  }
}
