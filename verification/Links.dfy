/**
 What the queue macros of bsdqueue.h share.  In a tail queue a head and an entry have the same
 layout, a pointer to the next element and the address of the pointer that leads here; TAILQ_LAST
 and TAILQ_PREV rely on it.  So one class stands for both, and the address of an object's `next`
 field is the object.  The head of a LIST has no second field and never uses it; in a circular
 queue the second field is the previous element itself, the head standing for the end.
 */
module Links {
  import opened Common

  class Link {
    var next: Link?
    /** The link whose `next` leads here; in a head, the last link of the queue. */
    var prev: Link?

    constructor () {
      next, prev := null, null;
    }
  }

  function InsertAt(s: seq<Link>, k: nat, x: Link): seq<Link>
    requires k <= |s|
  {
    s[..k] + [x] + s[k..]
  }

  function RemoveAt(s: seq<Link>, k: nat): seq<Link>
    requires k < |s|
  {
    s[..k] + s[k + 1..]
  }

  /** The k-th link, the head counting as the first. */
  function Cell(head: Link, s: seq<Link>, k: nat): Link
    requires k <= |s|
  {
    if k == 0 then head else s[k - 1]
  }

  /** Where the k-th link leads; the last one leads to `end`. */
  function NextOf(s: seq<Link>, k: nat, end: Link?): Link?
    requires k <= |s|
  {
    if k < |s| then s[k] else end
  }

  ghost predicate Distinct(head: Link, s: seq<Link>) {
    head !in s && forall i, j :: 0 <= i < j < |s| ==> s[i] != s[j]
  }

  lemma InsertedDistinct(head: Link, s: seq<Link>, k: nat, x: Link)
    requires k <= |s| && x != head && x !in s && Distinct(head, s)
    ensures |InsertAt(s, k, x)| == |s| + 1 && Distinct(head, InsertAt(s, k, x))
  {
  }

  lemma InsertedCell(head: Link, s: seq<Link>, k: nat, x: Link, j: nat, end: Link?)
    requires k <= |s| && j <= |s| + 1
    ensures var r := InsertAt(s, k, x);
            && |r| == |s| + 1
            && Cell(head, r, j) == (if j <= k then Cell(head, s, j) else if j == k + 1 then x else Cell(head, s, j - 1))
            && NextOf(r, j, end) == (if j < k then NextOf(s, j, end) else if j == k then x else NextOf(s, j - 1, end))
            && (j <= |s| ==> r[j] == if j < k then s[j] else if j == k then x else s[j - 1])
  {
  }

  lemma RemovedDistinct(head: Link, s: seq<Link>, k: nat)
    requires k < |s| && Distinct(head, s)
    ensures |RemoveAt(s, k)| == |s| - 1 && Distinct(head, RemoveAt(s, k))
  {
  }

  lemma RemovedCell(head: Link, s: seq<Link>, k: nat, j: nat, end: Link?)
    requires k < |s| && j < |s|
    ensures var r := RemoveAt(s, k);
            && |r| == |s| - 1
            && Cell(head, r, j) == (if j <= k then Cell(head, s, j) else Cell(head, s, j + 1))
            && NextOf(r, j, end) == (if j < k then NextOf(s, j, end) else NextOf(s, j + 1, end))
            && (j < |r| ==> r[j] == if j < k then s[j] else s[j + 1])
  {
  }

  lemma Found(s: seq<Link>, k: nat, head: Link)
    requires k < |s| && Distinct(head, s)
    ensures IndexOf(s, s[k]) == k
  {
  }

  /** The links of `head` hold exactly the elements s, the last one leading to `end`. */
  ghost predicate Linked(head: Link, s: seq<Link>, end: Link?)
    reads head, s
  {
    && Distinct(head, s)
    && (forall k {:trigger Cell(head, s, k).next} :: 0 <= k <= |s| ==> Cell(head, s, k).next == NextOf(s, k, end))
    && (forall k {:trigger s[k].prev} :: 0 <= k < |s| ==> s[k].prev == Cell(head, s, k))
  }

  /** Linked, and the head knows the last link. */
  ghost predicate TwoEnded(head: Link, s: seq<Link>, end: Link?)
    reads head, s
  {
    Linked(head, s, end) && head.prev == Cell(head, s, |s|)
  }

  /** All links except those at places k to m, which were redirected. */
  ghost predicate ElsewhereLinked(head: Link, s: seq<Link>, end: Link?, k: nat, m: nat)
    requires k <= m <= |s|
    reads head, s
  {
    && Distinct(head, s)
    && (forall j {:trigger Cell(head, s, j).next} :: 0 <= j <= |s| && !(k <= j <= m) ==>
        Cell(head, s, j).next == NextOf(s, j, end))
    && (forall j {:trigger s[j].prev} :: 0 <= j < |s| && !(k <= j <= m) ==> s[j].prev == Cell(head, s, j))
  }

  /** Four pointers make an insertion. */
  lemma Inserted(head: Link, s: seq<Link>, end: Link?, k: nat, x: Link)
    requires k <= |s| && x != head && x !in s && ElsewhereLinked(head, s, end, k, k)
    requires Cell(head, s, k).next == x && x.prev == Cell(head, s, k) && x.next == NextOf(s, k, end)
    requires k < |s| ==> s[k].prev == x
    ensures Linked(head, InsertAt(s, k, x), end)
    ensures head.prev == (if k < |s| then Cell(head, s, |s|) else x) ==> TwoEnded(head, InsertAt(s, k, x), end)
  {
    hide InsertAt;
    var r := InsertAt(s, k, x);
    InsertedDistinct(head, s, k, x);
    forall j | 0 <= j <= |r| ensures Cell(head, r, j).next == NextOf(r, j, end) {
      InsertedCell(head, s, k, x, j, end);
    }
    forall j | 0 <= j < |r| ensures r[j].prev == Cell(head, r, j) {
      InsertedCell(head, s, k, x, j, end);
    }
    InsertedCell(head, s, k, x, |r|, end);
  }

  /** Two pointers make a removal. */
  lemma Removed(head: Link, s: seq<Link>, end: Link?, k: nat)
    requires k < |s| && ElsewhereLinked(head, s, end, k, k + 1)
    requires Cell(head, s, k).next == NextOf(s, k + 1, end)
    requires k + 1 < |s| ==> s[k + 1].prev == Cell(head, s, k)
    ensures Linked(head, RemoveAt(s, k), end)
    ensures head.prev == (if k + 1 < |s| then Cell(head, s, |s|) else Cell(head, s, k)) ==>
              TwoEnded(head, RemoveAt(s, k), end)
  {
    hide RemoveAt;
    var r := RemoveAt(s, k);
    RemovedDistinct(head, s, k);
    forall j | 0 <= j <= |r| ensures Cell(head, r, j).next == NextOf(r, j, end) {
      RemovedCell(head, s, k, j, end);
    }
    forall j | 0 <= j < |r| ensures r[j].prev == Cell(head, r, j) {
      RemovedCell(head, s, k, j, end);
    }
    RemovedCell(head, s, k, |r|, end);
  }

  /** Four pointers make a replacement. */
  lemma Replaced(head: Link, s: seq<Link>, end: Link?, k: nat, x: Link)
    requires k < |s| && x != head && x !in s && ElsewhereLinked(head, s, end, k, k + 1)
    requires Cell(head, s, k).next == x && x.prev == Cell(head, s, k) && x.next == NextOf(s, k + 1, end)
    requires k + 1 < |s| ==> s[k + 1].prev == x
    ensures Linked(head, s[k := x], end)
    ensures head.prev == (if k + 1 < |s| then Cell(head, s, |s|) else x) ==> TwoEnded(head, s[k := x], end)
  {
    var r := s[k := x];
    forall j | 0 <= j <= |r|
      ensures Cell(head, r, j) == if j == k + 1 then x else Cell(head, s, j)
      ensures NextOf(r, j, end) == if j == k then x else NextOf(s, j, end)
    {
    }
  }

  // ---------------------------------------------------------------- runs

  datatype Operation =
    | AddHead(elm: Link)
    | AddTail(elm: Link)
    | AddAfter(listelm: Link, elm: Link)
    | AddBefore(listelm: Link, elm: Link)
    | Take(elm: Link)
    | Swap(elm: Link, elm2: Link)

  /** What the macros ask of their caller: new elements are new, old ones are in the list. */
  predicate Legal(head: Link, s: seq<Link>, op: Operation) {
    match op
    case AddHead(x) => x != head && x !in s
    case AddTail(x) => x != head && x !in s
    case AddAfter(y, x) => x != head && x !in s && y in s
    case AddBefore(y, x) => x != head && x !in s && y in s
    case Take(x) => x in s
    case Swap(y, x) => x != head && x !in s && y in s
  }

  function Apply(head: Link, s: seq<Link>, op: Operation): seq<Link>
    requires Legal(head, s, op)
  {
    match op
    case AddHead(x) => InsertAt(s, 0, x)
    case AddTail(x) => InsertAt(s, |s|, x)
    case AddAfter(y, x) => InsertAt(s, IndexOf(s, y) + 1, x)
    case AddBefore(y, x) => InsertAt(s, IndexOf(s, y), x)
    case Take(x) => RemoveAt(s, IndexOf(s, x))
    case Swap(y, x) => s[IndexOf(s, y) := x]
  }

  predicate LegalRun(head: Link, s: seq<Link>, ops: seq<Operation>)
    decreases |ops|
  {
    ops == [] || (Legal(head, s, ops[0]) && LegalRun(head, Apply(head, s, ops[0]), ops[1..]))
  }

  function ApplyAll(head: Link, s: seq<Link>, ops: seq<Operation>): seq<Link>
    requires LegalRun(head, s, ops)
    decreases |ops|
  {
    if ops == [] then s else ApplyAll(head, Apply(head, s, ops[0]), ops[1..])
  }

  /** The element an operation brings in or takes out. */
  function Moved(op: Operation): Link {
    match op
    case AddHead(x) => x
    case AddTail(x) => x
    case AddAfter(_, x) => x
    case AddBefore(_, x) => x
    case Take(x) => x
    case Swap(_, x) => x
  }

  function AllMoved(ops: seq<Operation>): set<Link> { set i | 0 <= i < |ops| :: Moved(ops[i]) }

  lemma ApplyMembers(head: Link, s: seq<Link>, op: Operation)
    requires Legal(head, s, op)
    ensures forall x :: x in Apply(head, s, op) ==> x in s || x == Moved(op)
  {
    hide IndexOf;
  }
}
