/**
 The LIST macros of bsdqueue.h: no pointer to the last element, and so neither an insertion at the
 tail nor a walk backwards; in return only LIST_INSERT_HEAD needs the head.
 */
module LinkedList {
  import opened Common
  import opened Links

  method Init(head: Link)
    modifies head
    ensures Linked(head, [], null)
  {
    head.next := null;
  }

  method InsertAfter(listelm: Link, elm: Link, ghost head: Link, ghost s: seq<Link>)
    requires Linked(head, s, null) && elm != head && elm !in s && listelm in s
    modifies s, elm
    ensures Linked(head, InsertAt(s, IndexOf(s, listelm) + 1, elm), null)
  {
    hide InsertAt;
    assert Cell(head, s, IndexOf(s, listelm) + 1) == listelm;
    elm.next := listelm.next;
    if elm.next != null {
      listelm.next.prev := elm;
    }
    listelm.next := elm;
    elm.prev := listelm;
    Inserted(head, s, null, IndexOf(s, listelm) + 1, elm);
  }

  method InsertBefore(listelm: Link, elm: Link, ghost head: Link, ghost s: seq<Link>)
    requires Linked(head, s, null) && elm != head && elm !in s && listelm in s
    modifies head, s, elm
    ensures Linked(head, InsertAt(s, IndexOf(s, listelm), elm), null)
  {
    hide InsertAt, IndexOf;
    ghost var k := IndexOf(s, listelm);
    elm.prev := listelm.prev;
    elm.next := listelm;
    listelm.prev.next := elm;
    listelm.prev := elm;
    Inserted(head, s, null, k, elm);
  }

  method InsertHead(head: Link, elm: Link, ghost s: seq<Link>)
    requires Linked(head, s, null) && elm != head && elm !in s
    modifies head, s, elm
    ensures Linked(head, InsertAt(s, 0, elm), null)
  {
    assert Cell(head, s, 0) == head;
    elm.next := head.next;
    if elm.next != null {
      head.next.prev := elm;
    }
    head.next := elm;
    elm.prev := head;
    Inserted(head, s, null, 0, elm);
  }

  method Remove(elm: Link, ghost head: Link, ghost s: seq<Link>)
    requires Linked(head, s, null) && elm in s
    modifies head, s
    ensures Linked(head, RemoveAt(s, IndexOf(s, elm)), null)
    ensures elm.next == old(elm.next) && elm.prev == old(elm.prev)
  {
    hide RemoveAt, IndexOf;
    ghost var k := IndexOf(s, elm);
    assert Cell(head, s, k + 1) == elm && elm.next == NextOf(s, k + 1, null);
    if elm.next != null {
      elm.next.prev := elm.prev;
    }
    elm.prev.next := elm.next;
    Removed(head, s, null, k);
  }

  method Replace(elm: Link, elm2: Link, ghost head: Link, ghost s: seq<Link>)
    requires Linked(head, s, null) && elm in s && elm2 != head && elm2 !in s
    modifies head, s, elm2
    ensures Linked(head, s[IndexOf(s, elm) := elm2], null)
  {
    hide IndexOf;
    ghost var k := IndexOf(s, elm);
    assert Cell(head, s, k + 1) == elm && elm.next == NextOf(s, k + 1, null);
    elm2.next := elm.next;
    if elm2.next != null {
      elm2.next.prev := elm2;
    }
    elm2.prev := elm.prev;
    elm2.prev.next := elm2;
    Replaced(head, s, null, k, elm2);
  }

  /** LIST_FOREACH visits the elements in order. */
  method Forward(head: Link, ghost s: seq<Link>) returns (visited: seq<Link>)
    requires Linked(head, s, null)
    ensures visited == s
  {
    visited := [];
    assert Cell(head, s, 0) == head;
    var v := head.next;
    ghost var k := 0;
    while v != null
      invariant k <= |s| && visited == s[..k] && v == NextOf(s, k, null)
      decreases |s| - k
    {
      visited := visited + [v];
      k := k + 1;
      assert Cell(head, s, k) == v;
      v := v.next;
    }
  }

  // ---------------------------------------------------------------- runs

  method Perform(head: Link, op: Operation, ghost s: seq<Link>)
    requires Linked(head, s, null) && Legal(head, s, op) && !op.AddTail?
    modifies head, s, Moved(op)
    ensures Linked(head, Apply(head, s, op), null)
  {
    hide Linked, InsertAt, RemoveAt, IndexOf;
    match op {
      case AddHead(x) => InsertHead(head, x, s);
      case AddAfter(y, x) => InsertAfter(y, x, head, s);
      case AddBefore(y, x) => InsertBefore(y, x, head, s);
      case Take(x) => Remove(x, head, s);
      case Swap(y, x) => Replace(y, x, head, s);
    }
  }

  /** Any legal run, then a traversal: the sequence the run amounts to. */
  method Replay(head: Link, ops: seq<Operation>) returns (forward: seq<Link>)
    requires LegalRun(head, [], ops) && forall i :: 0 <= i < |ops| ==> !ops[i].AddTail?
    modifies head, AllMoved(ops)
    ensures Linked(head, ApplyAll(head, [], ops), null) && forward == ApplyAll(head, [], ops)
  {
    hide Linked, Apply, Legal;
    Init(head);
    ghost var s: seq<Link> := [];
    var i := 0;
    assert ops[0..] == ops;
    while i < |ops|
      invariant i <= |ops| && Linked(head, s, null)
      invariant LegalRun(head, s, ops[i..]) && ApplyAll(head, s, ops[i..]) == ApplyAll(head, [], ops)
      invariant forall x :: x in s ==> x in AllMoved(ops)
    {
      assert ops[i..][1..] == ops[i + 1..];
      assert Moved(ops[i]) in AllMoved(ops);
      ApplyMembers(head, s, ops[i]);
      Perform(head, ops[i], s);
      s := Apply(head, s, ops[i]);
      i := i + 1;
    }
    forward := Forward(head, s);
  }
}
