/**
 The CIRCLEQ macros of bsdqueue.h: the head closes the circle, standing for the end on either side.
 */
module CircularQueue {
  import opened Common
  import opened Links

  /** The circle through `head` holds exactly the elements s, in both directions. */
  ghost predicate Circle(head: Link, s: seq<Link>)
    reads head, s
  {
    TwoEnded(head, s, head)
  }

  method Init(head: Link)
    modifies head
    ensures Circle(head, [])
  {
    head.next := head;
    head.prev := head;
  }

  method InsertAfter(head: Link, listelm: Link, elm: Link, ghost s: seq<Link>)
    requires Circle(head, s) && elm != head && elm !in s && listelm in s
    modifies head, s, elm
    ensures Circle(head, InsertAt(s, IndexOf(s, listelm) + 1, elm))
  {
    hide InsertAt;
    assert Cell(head, s, IndexOf(s, listelm) + 1) == listelm;
    elm.next := listelm.next;
    elm.prev := listelm;
    if listelm.next == head {
      head.prev := elm;
    } else {
      listelm.next.prev := elm;
    }
    listelm.next := elm;
    Inserted(head, s, head, IndexOf(s, listelm) + 1, elm);
  }

  method InsertBefore(head: Link, listelm: Link, elm: Link, ghost s: seq<Link>)
    requires Circle(head, s) && elm != head && elm !in s && listelm in s
    modifies head, s, elm
    ensures Circle(head, InsertAt(s, IndexOf(s, listelm), elm))
  {
    hide InsertAt, IndexOf;
    ghost var k := IndexOf(s, listelm);
    elm.next := listelm;
    elm.prev := listelm.prev;
    if listelm.prev == head {
      head.next := elm;
    } else {
      listelm.prev.next := elm;
    }
    listelm.prev := elm;
    Inserted(head, s, head, k, elm);
  }

  method InsertHead(head: Link, elm: Link, ghost s: seq<Link>)
    requires Circle(head, s) && elm != head && elm !in s
    modifies head, s, elm
    ensures Circle(head, InsertAt(s, 0, elm))
  {
    assert Cell(head, s, 0) == head;
    elm.next := head.next;
    elm.prev := head;
    if head.prev == head {
      head.prev := elm;
    } else {
      head.next.prev := elm;
    }
    head.next := elm;
    Inserted(head, s, head, 0, elm);
  }

  method InsertTail(head: Link, elm: Link, ghost s: seq<Link>)
    requires Circle(head, s) && elm != head && elm !in s
    modifies head, s, elm
    ensures Circle(head, InsertAt(s, |s|, elm))
  {
    assert Cell(head, s, 0) == head;
    ghost var last := Cell(head, s, |s|);
    elm.next := head;
    elm.prev := head.prev;
    if head.next == head {
      head.next := elm;
    } else {
      head.prev.next := elm;
    }
    head.prev := elm;
    Inserted(head, s, head, |s|, elm);
  }

  method Remove(head: Link, elm: Link, ghost s: seq<Link>)
    requires Circle(head, s) && elm in s
    modifies head, s
    ensures Circle(head, RemoveAt(s, IndexOf(s, elm)))
    ensures elm.next == old(elm.next) && elm.prev == old(elm.prev)
  {
    hide RemoveAt, IndexOf;
    ghost var k := IndexOf(s, elm);
    assert Cell(head, s, k + 1) == elm && elm.next == NextOf(s, k + 1, head);
    if elm.next == head {
      head.prev := elm.prev;
    } else {
      elm.next.prev := elm.prev;
    }
    if elm.prev == head {
      head.next := elm.next;
    } else {
      elm.prev.next := elm.next;
    }
    Removed(head, s, head, k);
  }

  // ---------------------------------------------------------------- traversal

  /** CIRCLEQ_FOREACH visits the elements in order. */
  method Forward(head: Link, ghost s: seq<Link>) returns (visited: seq<Link>)
    requires Circle(head, s)
    ensures visited == s
  {
    visited := [];
    assert Cell(head, s, 0) == head;
    var v := head.next;
    ghost var k := 0;
    while v != head
      invariant k <= |s| && visited == s[..k] && v == NextOf(s, k, head)
      decreases |s| - k
    {
      visited := visited + [v];
      k := k + 1;
      assert Cell(head, s, k) == v;
      v := v.next;
    }
  }

  /** CIRCLEQ_FOREACH_REVERSE visits them backwards. */
  method Backward(head: Link, ghost s: seq<Link>) returns (visited: seq<Link>)
    requires Circle(head, s)
    ensures visited == Reversed(s)
  {
    visited := [];
    var v := head.prev;
    ghost var k := |s|;
    while v != head
      invariant 0 <= k <= |s| && |visited| == |s| - k
      invariant forall i :: 0 <= i < |visited| ==> visited[i] == s[|s| - 1 - i]
      invariant v == Cell(head, s, k)
      decreases k
    {
      visited := visited + [v];
      k := k - 1;
      v := v.prev;
    }
  }

  // ---------------------------------------------------------------- runs

  method Perform(head: Link, op: Operation, ghost s: seq<Link>)
    requires Circle(head, s) && Legal(head, s, op) && !op.Swap?
    modifies head, s, Moved(op)
    ensures Circle(head, Apply(head, s, op))
  {
    hide Circle, TwoEnded, Linked, InsertAt, RemoveAt, IndexOf;
    match op {
      case AddHead(x) => InsertHead(head, x, s);
      case AddTail(x) => InsertTail(head, x, s);
      case AddAfter(y, x) => InsertAfter(head, y, x, s);
      case AddBefore(y, x) => InsertBefore(head, y, x, s);
      case Take(x) => Remove(head, x, s);
    }
  }

  /** Any legal run, then both traversals: the sequence it amounts to, and its reverse. */
  method Replay(head: Link, ops: seq<Operation>) returns (forward: seq<Link>, backward: seq<Link>)
    requires LegalRun(head, [], ops) && forall i :: 0 <= i < |ops| ==> !ops[i].Swap?
    modifies head, AllMoved(ops)
    ensures Circle(head, ApplyAll(head, [], ops))
    ensures forward == ApplyAll(head, [], ops) && backward == Reversed(ApplyAll(head, [], ops))
  {
    hide Circle, TwoEnded, Linked, Apply, Legal;
    Init(head);
    ghost var s: seq<Link> := [];
    var i := 0;
    assert ops[0..] == ops;
    while i < |ops|
      invariant i <= |ops| && Circle(head, s)
      invariant LegalRun(head, s, ops[i..]) && ApplyAll(head, s, ops[i..]) == ApplyAll(head, [], ops)
      invariant forall x :: x in s ==> x in AllMoved(ops)
    {
      assert ops[i..][1..] == ops[i + 1..];
      assert Moved(ops[i]) in AllMoved(ops);
      ApplyMembers(head, s, ops[i]);
      Perform(head, ops[i], s);
      s := Apply(head, s, ops[i]);
      i := i + 1;
    }
    forward := Forward(head, s);
    backward := Backward(head, s);
  }
}
