/**
 The TAILQ macros of bsdqueue.h.
 */
module TailQueue {
  import opened Common
  import opened Links

  /** The links of `head` hold exactly the elements s, in both directions. */
  ghost predicate Queue(head: Link, s: seq<Link>)
    reads head, s
  {
    TwoEnded(head, s, null)
  }

  method Init(head: Link)
    modifies head
    ensures Queue(head, [])
  {
    head.next := null;
    head.prev := head;
  }

  method InsertHead(head: Link, elm: Link, ghost s: seq<Link>)
    requires Queue(head, s) && elm != head && elm !in s
    modifies head, s, elm
    ensures Queue(head, InsertAt(s, 0, elm))
  {
    assert Cell(head, s, 0) == head;
    elm.next := head.next;
    if elm.next != null {
      head.next.prev := elm;
    } else {
      head.prev := elm;
    }
    head.next := elm;
    elm.prev := head;
    Inserted(head, s, null, 0, elm);
  }

  method InsertTail(head: Link, elm: Link, ghost s: seq<Link>)
    requires Queue(head, s) && elm != head && elm !in s
    modifies head, s, elm
    ensures Queue(head, InsertAt(s, |s|, elm))
  {
    ghost var last := Cell(head, s, |s|);
    elm.next := null;
    elm.prev := head.prev;
    head.prev.next := elm;
    head.prev := elm;
    Inserted(head, s, null, |s|, elm);
  }

  method InsertAfter(head: Link, listelm: Link, elm: Link, ghost s: seq<Link>)
    requires Queue(head, s) && elm != head && elm !in s && listelm in s
    modifies head, s, elm
    ensures Queue(head, InsertAt(s, IndexOf(s, listelm) + 1, elm))
  {
    hide InsertAt;
    assert Cell(head, s, IndexOf(s, listelm) + 1) == listelm;
    elm.next := listelm.next;
    if elm.next != null {
      elm.next.prev := elm;
    } else {
      head.prev := elm;
    }
    listelm.next := elm;
    elm.prev := listelm;
    Inserted(head, s, null, IndexOf(s, listelm) + 1, elm);
  }

  /** Needs no head: the pointer to be redirected is found through `prev`. */
  method InsertBefore(listelm: Link, elm: Link, ghost head: Link, ghost s: seq<Link>)
    requires Queue(head, s) && elm != head && elm !in s && listelm in s
    modifies head, s, elm
    ensures Queue(head, InsertAt(s, IndexOf(s, listelm), elm))
  {
    hide InsertAt, IndexOf;
    ghost var k := IndexOf(s, listelm);
    elm.prev := listelm.prev;
    elm.next := listelm;
    listelm.prev.next := elm;
    listelm.prev := elm;
    Inserted(head, s, null, k, elm);
  }

  method Remove(head: Link, elm: Link, ghost s: seq<Link>)
    requires Queue(head, s) && elm in s
    modifies head, s
    ensures Queue(head, RemoveAt(s, IndexOf(s, elm)))
    ensures elm.next == old(elm.next) && elm.prev == old(elm.prev)
  {
    hide RemoveAt, IndexOf;
    ghost var k := IndexOf(s, elm);
    assert Cell(head, s, k + 1) == elm && elm.next == NextOf(s, k + 1, null);
    if elm.next != null {
      elm.next.prev := elm.prev;
    } else {
      head.prev := elm.prev;
    }
    elm.prev.next := elm.next;
    Removed(head, s, null, k);
  }

  method Replace(head: Link, elm: Link, elm2: Link, ghost s: seq<Link>)
    requires Queue(head, s) && elm in s && elm2 != head && elm2 !in s
    modifies head, s, elm2
    ensures Queue(head, s[IndexOf(s, elm) := elm2])
  {
    hide IndexOf;
    ghost var k := IndexOf(s, elm);
    assert Cell(head, s, k + 1) == elm && elm.next == NextOf(s, k + 1, null);
    elm2.next := elm.next;
    if elm2.next != null {
      elm2.next.prev := elm2;
    } else {
      head.prev := elm2;
    }
    elm2.prev := elm.prev;
    elm2.prev.next := elm2;
    Replaced(head, s, null, k, elm2);
  }

  // ---------------------------------------------------------------- traversal

  /** TAILQ_FOREACH visits the elements in order. */
  method Forward(head: Link, ghost s: seq<Link>) returns (visited: seq<Link>)
    requires Queue(head, s)
    ensures visited == s
  {
    visited := [];
    assert Cell(head, s, 0) == head;
    var v := head.next;
    ghost var k := 0;
    while v != null
      invariant k <= |s| && visited == s[..k] && v == NextOf(s, k, null)
      decreases |s| - k
    {
      visited := visited + [v];
      k := k + 1;
      assert Cell(head, s, k) == v;
      v := v.next;
    }
  }

  /** TAILQ_LAST: two steps back through the head, one forward. */
  method Last(head: Link, ghost s: seq<Link>) returns (v: Link?)
    requires Queue(head, s)
    ensures v == if s == [] then null else s[|s| - 1]
  {
    assert Cell(head, s, 0) == head;
    v := head.prev.prev.next;
  }

  /** TAILQ_PREV: the same through an element; null before the first one. */
  method Prev(elm: Link, ghost head: Link, ghost s: seq<Link>) returns (v: Link?)
    requires Queue(head, s) && elm in s
    ensures v == if IndexOf(s, elm) == 0 then null else s[IndexOf(s, elm) - 1]
  {
    v := elm.prev.prev.next;
  }

  /** TAILQ_FOREACH_REVERSE visits them backwards. */
  method Backward(head: Link, ghost s: seq<Link>) returns (visited: seq<Link>)
    requires Queue(head, s)
    ensures visited == Reversed(s)
  {
    visited := [];
    var v := Last(head, s);
    ghost var k := |s|;
    while v != null
      invariant 0 <= k <= |s| && |visited| == |s| - k
      invariant forall i :: 0 <= i < |visited| ==> visited[i] == s[|s| - 1 - i]
      invariant v == if k == 0 then null else s[k - 1]
      decreases k
    {
      visited := visited + [v];
      k := k - 1;
      Found(s, k, head);
      v := Prev(v, head, s);
    }
  }

  // ---------------------------------------------------------------- runs

  method Perform(head: Link, op: Operation, ghost s: seq<Link>)
    requires Queue(head, s) && Legal(head, s, op)
    modifies head, s, Moved(op)
    ensures Queue(head, Apply(head, s, op))
  {
    hide Queue, TwoEnded, Linked, InsertAt, RemoveAt, IndexOf;
    match op {
      case AddHead(x) => InsertHead(head, x, s);
      case AddTail(x) => InsertTail(head, x, s);
      case AddAfter(y, x) => InsertAfter(head, y, x, s);
      case AddBefore(y, x) => InsertBefore(y, x, head, s);
      case Take(x) => Remove(head, x, s);
      case Swap(y, x) => Replace(head, y, x, s);
    }
  }

  /** Any legal run, then both traversals: the sequence it amounts to, and its reverse. */
  method Replay(head: Link, ops: seq<Operation>) returns (forward: seq<Link>, backward: seq<Link>)
    requires LegalRun(head, [], ops)
    modifies head, AllMoved(ops)
    ensures Queue(head, ApplyAll(head, [], ops))
    ensures forward == ApplyAll(head, [], ops) && backward == Reversed(ApplyAll(head, [], ops))
  {
    hide Queue, TwoEnded, Linked, Apply, Legal;
    Init(head);
    ghost var s: seq<Link> := [];
    var i := 0;
    assert ops[0..] == ops;
    while i < |ops|
      invariant i <= |ops| && Queue(head, s)
      invariant LegalRun(head, s, ops[i..]) && ApplyAll(head, s, ops[i..]) == ApplyAll(head, [], ops)
      invariant forall x :: x in s ==> x in AllMoved(ops)
    {
      assert ops[i..][1..] == ops[i + 1..];
      assert Moved(ops[i]) in AllMoved(ops);
      ApplyMembers(head, s, ops[i]);
      Perform(head, ops[i], s);
      s := Apply(head, s, ops[i]);
      i := i + 1;
    }
    forward := Forward(head, s);
    backward := Backward(head, s);
  }
}
