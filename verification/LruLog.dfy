/**
 What the cache of lru_cache.h must hold, told by the history of touches alone: the first
 `capacity` keys in the order of their last touch, with the value last put.
 */
module LruLog {
  import opened Common

  /** A put, or a successful get. */
  datatype Touch<K, V> = Put(key: K, value: V) | Got(key: K)

  datatype Operation<K, V> = DoPut(key: K, value: V) | DoGet(key: K) | DoClear

  function Drop<K(==)>(s: seq<K>, k: K): (r: seq<K>)
    ensures |r| <= |s|
  {
    if s == [] then []
    else if s[0] == k then Drop(s[1..], k)
    else [s[0]] + Drop(s[1..], k)
  }

  /** The keys touched, the latest first, each one once. */
  function Recency<K(==), V>(log: seq<Touch<K, V>>): seq<K> {
    if log == [] then []
    else
      var k := log[|log| - 1].key;
      [k] + Drop(Recency(log[..|log| - 1]), k)
  }

  function LastPut<K(==), V>(log: seq<Touch<K, V>>, k: K): Option<V> {
    if log == [] then None
    else
      var t := log[|log| - 1];
      if t.Put? && t.key == k then Some(t.value) else LastPut(log[..|log| - 1], k)
  }

  function Take<T>(s: seq<T>, n: nat): (r: seq<T>)
    ensures |r| == if n < |s| then n else |s|
    ensures forall i :: 0 <= i < |r| ==> r[i] == s[i]
  {
    if n < |s| then s[..n] else s
  }

  /** The keys a cache of the given capacity holds. */
  function Held<K(==), V>(log: seq<Touch<K, V>>, capacity: nat): seq<K> { Take(Recency(log), capacity) }

  /** How an operation extends the log since the last clear. */
  function Apply<K(==), V>(capacity: nat, log: seq<Touch<K, V>>, op: Operation<K, V>): seq<Touch<K, V>> {
    match op
    case DoPut(k, v) => log + [Put(k, v)]
    case DoGet(k) => if k in Held(log, capacity) then log + [Got(k)] else log
    case DoClear => []
  }

  function ApplyAll<K(==), V>(capacity: nat, log: seq<Touch<K, V>>, ops: seq<Operation<K, V>>): seq<Touch<K, V>>
    decreases |ops|
  {
    if ops == [] then log else ApplyAll(capacity, Apply(capacity, log, ops[0]), ops[1..])
  }

  // ---------------------------------------------------------------- order of touches

  ghost predicate Distinct<K>(s: seq<K>) {
    forall i, j :: 0 <= i < j < |s| ==> s[i] != s[j]
  }

  lemma {:induction false} DropMembers<K>(s: seq<K>, k: K)
    ensures forall x :: x in Drop(s, k) ==> x in s && x != k
    ensures forall x :: x in s && x != k ==> x in Drop(s, k)
    ensures Distinct(s) ==> Distinct(Drop(s, k))
    ensures k !in s ==> Drop(s, k) == s
    decreases |s|
  {
    if s == [] {
    } else {
      DropMembers(s[1..], k);
      assert s == [s[0]] + s[1..];
      if Distinct(s) {
        assert Distinct(s[1..]) && s[0] !in s[1..];
      }
    }
  }

  lemma {:induction false} RecencyDistinct<K, V>(log: seq<Touch<K, V>>)
    ensures Distinct(Recency(log))
    decreases |log|
  {
    if log == [] {
    } else {
      var init, k := log[..|log| - 1], log[|log| - 1].key;
      RecencyDistinct(init);
      DropMembers(Recency(init), k);
      var d := Drop(Recency(init), k);
      assert k !in d;
      forall i, j | 0 <= i < j < |[k] + d| ensures ([k] + d)[i] != ([k] + d)[j] {
        if i == 0 {
          assert ([k] + d)[j] == d[j - 1] && d[j - 1] in d;
        }
      }
    }
  }

  lemma {:induction false} DropSplit<K>(a: seq<K>, b: seq<K>, k: K)
    ensures Drop(a + b, k) == Drop(a, k) + Drop(b, k)
    decreases |a|
  {
    if a == [] {
      assert a + b == b;
    } else {
      assert (a + b)[0] == a[0] && (a + b)[1..] == a[1..] + b;
      DropSplit(a[1..], b, k);
    }
  }

  lemma {:induction false} DropLength<K>(s: seq<K>, k: K)
    requires Distinct(s) && k in s
    ensures |Drop(s, k)| == |s| - 1
    decreases |s|
  {
    var t := s[1..];
    assert s == [s[0]] + t && Distinct(t);
    if s[0] == k {
      assert k !in t;
      DropMembers(t, k);
    } else {
      DropLength(t, k);
    }
  }

  lemma TakeSplits<K>(s: seq<K>, n: nat)
    ensures s == Take(s, n) + s[|Take(s, n)|..] && (n >= |s| ==> s[|Take(s, n)|..] == [])
    ensures Distinct(s) ==> Distinct(Take(s, n)) && forall x :: x in Take(s, n) ==> x !in s[|Take(s, n)|..]
  {
    var a, b := Take(s, n), s[|Take(s, n)|..];
    if Distinct(s) {
      forall x | x in a ensures x !in b {
        var i :| 0 <= i < |a| && a[i] == x;
        forall j | 0 <= j < |b| ensures b[j] != x {
          assert s[i] != s[|a| + j];
        }
      }
    }
  }

  /** Moving a held key to the front: nothing else enters or leaves. */
  lemma TouchHeld<K>(s: seq<K>, n: nat, k: K)
    requires Distinct(s) && k in Take(s, n)
    ensures Take([k] + Drop(s, k), n) == [k] + Drop(Take(s, n), k)
  {
    hide Drop, Distinct;
    var a := Take(s, n);
    var b := s[|a|..];
    TakeSplits(s, n);
    DropSplit(a, b, k);
    DropLength(a, k);
    DropMembers(b, k);
    var front := [k] + Drop(a, k);
    assert [k] + (Drop(a, k) + b) == front + b;
    if n < |s| {
      TakePrefix(front, b, n);
    } else {
      assert front + [] == front;
    }
  }

  /** A new key in front: the last one leaves if there is no room. */
  lemma TouchNew<K>(s: seq<K>, n: nat, k: K)
    requires Distinct(s) && k !in Take(s, n)
    ensures Take([k] + Drop(s, k), n) == Take([k] + Take(s, n), n)
  {
    hide Drop, Distinct;
    var a := Take(s, n);
    var b := s[|a|..];
    TakeSplits(s, n);
    DropSplit(a, b, k);
    DropMembers(a, k);
    DropMembers(b, k);
    assert [k] + (a + Drop(b, k)) == ([k] + a) + Drop(b, k);
    if n >= |s| {
      assert ([k] + a) + [] == [k] + a;
    } else {
      TakePrefix([k] + a, Drop(b, k), n);
    }
  }

  lemma TakePrefix<T>(a: seq<T>, b: seq<T>, n: nat)
    requires n <= |a|
    ensures Take(a + b, n) == Take(a, n)
  {
  }

  // ---------------------------------------------------------------- when a key is held

  /** The keys touched since the last touch of k. */
  function Since<K(==), V>(log: seq<Touch<K, V>>, k: K): set<K> {
    if log == [] || log[|log| - 1].key == k then {}
    else Since(log[..|log| - 1], k) + {log[|log| - 1].key}
  }

  ghost predicate Touched<K, V>(log: seq<Touch<K, V>>, k: K) {
    exists i :: 0 <= i < |log| && log[i].key == k
  }

  function Elements<K>(s: seq<K>): set<K> { set x | x in s }

  lemma ElementsCons<K>(x: K, s: seq<K>)
    ensures Elements([x] + s) == {x} + Elements(s)
  {
  }

  lemma {:induction false} ElementsSize<K>(s: seq<K>)
    requires Distinct(s)
    ensures |Elements(s)| == |s|
    decreases |s|
  {
    if s == [] {
    } else {
      var t := s[1..];
      assert s == [s[0]] + t && Distinct(t) && s[0] !in t;
      ElementsSize(t);
      assert Elements(s) == {s[0]} + Elements(t);
    }
  }

  lemma {:induction false} IndexAfter<K>(a: seq<K>, b: seq<K>, k: K)
    requires k !in a && (b == [] || b[0] == k)
    ensures IndexOf(a + b, k) == |a|
    decreases |a|
  {
    if a == [] {
      assert a + b == b;
    } else {
      assert (a + b)[0] == a[0] && (a + b)[1..] == a[1..] + b;
      IndexAfter(a[1..], b, k);
    }
  }

  /** Dropping another key does not disturb what precedes k. */
  lemma DropBefore<K>(s: seq<K>, x: K, k: K)
    requires x != k && Distinct(s)
    ensures var d := Drop(s, x);
            && Elements(d[..IndexOf(d, k)]) == Elements(s[..IndexOf(s, k)]) - {x}
            && (IndexOf(d, k) < |d| <==> IndexOf(s, k) < |s|)
  {
    hide IndexOf, Drop, Elements;
    var i := IndexOf(s, k);
    var a, b := s[..i], s[i..];
    assert s == a + b;
    DropSplit(a, b, x);
    ElementsDrop(a, x, k);
    DropStarts(b, x, k);
    IndexAfter(Drop(a, x), Drop(b, x), k);
    var d := Drop(s, x);
    assert d[..|Drop(a, x)|] == Drop(a, x);
  }

  lemma ElementsDrop<K>(a: seq<K>, x: K, k: K)
    requires k !in a
    ensures Elements(Drop(a, x)) == Elements(a) - {x} && k !in Drop(a, x)
  {
    hide Drop;
    DropMembers(a, x);
  }

  lemma DropStarts<K>(b: seq<K>, x: K, k: K)
    requires x != k && (b == [] || b[0] == k)
    ensures Drop(b, x) == [] <==> b == []
    ensures b != [] ==> Drop(b, x)[0] == k
  {
  }

  /** The keys in front of k are those touched since k was. */
  lemma {:induction false} BeforeIsSince<K, V>(log: seq<Touch<K, V>>, k: K)
    ensures var r := Recency(log);
            && (IndexOf(r, k) < |r| <==> Touched(log, k))
            && (Touched(log, k) ==> Elements(r[..IndexOf(r, k)]) == Since(log, k))
    decreases |log|
  {
    if log == [] {
    } else {
      var init, x := log[..|log| - 1], log[|log| - 1].key;
      BeforeIsSince(init, k);
      TouchedLast(log, k);
      RecencyDistinct(init);
      if x != k {
        BeforeStep(Recency(init), x, k);
      }
    }
  }

  lemma TouchedLast<K, V>(log: seq<Touch<K, V>>, k: K)
    requires log != []
    ensures Touched(log, k) <==> log[|log| - 1].key == k || Touched(log[..|log| - 1], k)
  {
    var init := log[..|log| - 1];
    if log[|log| - 1].key == k {
      assert Touched(log, k);
    }
    if i :| 0 <= i < |init| && init[i].key == k {
      assert log[i].key == k;
    }
    if i :| 0 <= i < |log| && log[i].key == k {
      assert i < |init| ==> init[i].key == k;
    }
  }

  /** A touch of x puts x in front of k. */
  lemma BeforeStep<K>(before: seq<K>, x: K, k: K)
    requires x != k && Distinct(before)
    ensures var r := [x] + Drop(before, x);
            && Elements(r[..IndexOf(r, k)]) == Elements(before[..IndexOf(before, k)]) + {x}
            && (IndexOf(r, k) < |r| <==> IndexOf(before, k) < |before|)
  {
    hide Drop;
    var d := Drop(before, x);
    var r := [x] + d;
    assert r[1..] == d;
    DropBefore(before, x, k);
    assert r[..IndexOf(r, k)] == [x] + d[..IndexOf(d, k)];
    ElementsCons(x, d[..IndexOf(d, k)]);
  }

  /** A key is held exactly when it was touched and fewer than `capacity` other keys were touched since. */
  lemma HeldExactly<K, V>(log: seq<Touch<K, V>>, capacity: nat, k: K)
    ensures k in Held(log, capacity) <==> Touched(log, k) && |Since(log, k)| < capacity
  {
    var r := Recency(log);
    var i := IndexOf(r, k);
    BeforeIsSince(log, k);
    RecencyDistinct(log);
    assert Distinct(r[..i]);
    ElementsSize(r[..i]);
    assert i < |r| && i < capacity ==> Held(log, capacity)[i] == k;
    if k in Held(log, capacity) {
      var j :| 0 <= j < |Held(log, capacity)| && Held(log, capacity)[j] == k;
      assert r[j] == k;
      assert i <= j;
    }
  }

  ghost predicate EveryTouchedPut<K, V>(log: seq<Touch<K, V>>) {
    forall i :: 0 <= i < |log| ==> LastPut(log, log[i].key).Some?
  }

  lemma {:induction false} PutTouches<K, V>(log: seq<Touch<K, V>>, k: K)
    requires LastPut(log, k).Some?
    ensures Touched(log, k)
    decreases |log|
  {
    TouchedLast(log, k);
    var t := log[|log| - 1];
    if t.Put? && t.key == k {
    } else {
      PutTouches(log[..|log| - 1], k);
    }
  }

  /** A get only touches what some put brought in. */
  lemma ApplyKeepsPut<K, V>(capacity: nat, log: seq<Touch<K, V>>, op: Operation<K, V>)
    requires EveryTouchedPut(log)
    ensures EveryTouchedPut(Apply(capacity, log, op))
  {
    hide Held;
    var log' := Apply(capacity, log, op);
    if |log'| == |log| + 1 {
      assert log'[..|log|] == log;
      if op.DoGet? {
        HeldExactly(log, capacity, op.key);
        var i :| 0 <= i < |log| && log[i].key == op.key;
      }
    }
  }

  lemma {:induction false} ApplyAllKeepsPut<K, V>(capacity: nat, log: seq<Touch<K, V>>, ops: seq<Operation<K, V>>)
    requires EveryTouchedPut(log)
    ensures EveryTouchedPut(ApplyAll(capacity, log, ops))
    decreases |ops|
  {
    hide EveryTouchedPut, Apply;
    if ops == [] {
    } else {
      ApplyKeepsPut(capacity, log, ops[0]);
      ApplyAllKeepsPut(capacity, Apply(capacity, log, ops[0]), ops[1..]);
    }
  }

  /**
   After any run, a key is held exactly when it was put since the last clear and fewer than
   `capacity` other keys were touched since its own last touch.
   */
  lemma HeldAfterRun<K, V>(capacity: nat, ops: seq<Operation<K, V>>, k: K)
    ensures var log := ApplyAll(capacity, [], ops);
            k in Held(log, capacity) <==> LastPut(log, k).Some? && |Since(log, k)| < capacity
  {
    hide Held;
    var log := ApplyAll(capacity, [], ops);
    ApplyAllKeepsPut(capacity, [], ops);
    HeldExactly(log, capacity, k);
    if LastPut(log, k).Some? {
      PutTouches(log, k);
    }
  }

  // ---------------------------------------------------------------- the same, told by the operations

  lemma {:induction false} ApplyAllSnoc<K, V>(capacity: nat, log: seq<Touch<K, V>>, ops: seq<Operation<K, V>>)
    requires ops != []
    ensures var n := |ops| - 1;
            ApplyAll(capacity, log, ops) == Apply(capacity, ApplyAll(capacity, log, ops[..n]), ops[n])
    decreases |ops|
  {
    hide Apply;
    var n := |ops| - 1;
    if n == 0 {
      assert ops[..0] == [] && ops[1..] == [];
    } else {
      ApplyAllSnoc(capacity, Apply(capacity, log, ops[0]), ops[1..]);
      assert ops[..n][0] == ops[0] && ops[..n][1..] == ops[1..][..n - 1];
    }
  }

  /** After these operations, does the cache hold k? */
  predicate Holds<K(==), V>(capacity: nat, ops: seq<Operation<K, V>>, k: K) {
    k in Held(ApplyAll(capacity, [], ops), capacity)
  }

  /** The j-th operation puts k, or gets it while it is held. */
  predicate TouchesAt<K(==), V>(capacity: nat, ops: seq<Operation<K, V>>, j: nat, k: K)
    requires j < |ops|
  {
    match ops[j]
    case DoPut(x, _) => x == k
    case DoGet(x) => x == k && Holds(capacity, ops[..j], k)
    case DoClear => false
  }

  /** The i-th operation is the last one that touches k, and nothing was cleared since. */
  ghost predicate LastTouch<K, V>(capacity: nat, ops: seq<Operation<K, V>>, k: K, i: nat) {
    && i < |ops| && TouchesAt(capacity, ops, i, k)
    && forall j :: i < j < |ops| ==> !ops[j].DoClear? && !TouchesAt(capacity, ops, j, k)
  }

  /** The keys touched after the i-th operation. */
  ghost function TouchedAfter<K, V>(capacity: nat, ops: seq<Operation<K, V>>, i: nat): set<K> {
    set j | i < j < |ops| && !ops[j].DoClear? && TouchesAt(capacity, ops, j, ops[j].key) :: ops[j].key
  }

  /** The i-th operation puts v for k, and neither was k put nor anything cleared since. */
  ghost predicate LastPutAt<K, V>(ops: seq<Operation<K, V>>, k: K, v: V, i: nat) {
    && i < |ops| && ops[i] == DoPut(k, v)
    && forall j :: i < j < |ops| ==> !ops[j].DoClear? && !(ops[j].DoPut? && ops[j].key == k)
  }

  /** The value the history holds for k is that of the last put since the last clear. */
  lemma {:induction false} ValueByOperations<K, V>(capacity: nat, ops: seq<Operation<K, V>>, k: K, v: V)
    ensures LastPut(ApplyAll(capacity, [], ops), k) == Some(v) <==> exists i :: LastPutAt(ops, k, v, i)
    decreases |ops|
  {
    hide Held, ApplyAll;
    if ops == [] {
      ApplyNothing<K, V>(capacity);
    } else {
      var n := |ops| - 1;
      var init, last := ops[..n], ops[n];
      var log := ApplyAll(capacity, [], init);
      ApplyAllSnoc(capacity, [], ops);
      ValueByOperations(capacity, init, k, v);
      if last.DoPut? && last.key == k {
        assert forall i :: LastPutAt(ops, k, v, i) ==> i == n;
        assert last == DoPut(k, v) ==> LastPutAt(ops, k, v, n);
        assert (log + [Put(last.key, last.value)])[..|log|] == log;
      } else if last.DoClear? {
        assert forall i :: !LastPutAt(ops, k, v, i);
      } else {
        forall i: nat ensures LastPutAt(ops, k, v, i) <==> LastPutAt(init, k, v, i) {
          LastPutStays(ops, k, v, i);
        }
        LastPutStep(capacity, log, last, k);
      }
    }
  }

  lemma ApplyNothing<K, V>(capacity: nat)
    ensures ApplyAll<K, V>(capacity, [], []) == []
  {
  }

  lemma LastPutStays<K, V>(ops: seq<Operation<K, V>>, k: K, v: V, i: nat)
    requires ops != [] && !ops[|ops| - 1].DoClear? && !(ops[|ops| - 1].DoPut? && ops[|ops| - 1].key == k)
    ensures LastPutAt(ops, k, v, i) <==> LastPutAt(ops[..|ops| - 1], k, v, i)
  {
  }

  lemma LastPutStep<K, V>(capacity: nat, log: seq<Touch<K, V>>, op: Operation<K, V>, k: K)
    requires !op.DoClear? && !(op.DoPut? && op.key == k)
    ensures LastPut(Apply(capacity, log, op), k) == LastPut(log, k)
  {
    hide Held;
    var log' := Apply(capacity, log, op);
    if |log'| > |log| {
      assert log'[..|log|] == log;
    }
  }

  lemma TouchesPrefix<K, V>(capacity: nat, ops: seq<Operation<K, V>>, n: nat, j: nat, k: K)
    requires j < n <= |ops|
    ensures TouchesAt(capacity, ops[..n], j, k) <==> TouchesAt(capacity, ops, j, k)
  {
    assert ops[..n][..j] == ops[..j];
  }

  /** A last operation that does not touch k leaves the last touch of k where it was. */
  lemma LastTouchStays<K, V>(capacity: nat, ops: seq<Operation<K, V>>, k: K, i: nat)
    requires ops != [] && !ops[|ops| - 1].DoClear? && !TouchesAt(capacity, ops, |ops| - 1, k)
    ensures LastTouch(capacity, ops, k, i) <==> LastTouch(capacity, ops[..|ops| - 1], k, i)
  {
    hide TouchesAt;
    var n := |ops| - 1;
    forall j | 0 <= j < n ensures TouchesAt(capacity, ops[..n], j, k) <==> TouchesAt(capacity, ops, j, k) {
      TouchesPrefix(capacity, ops, n, j, k);
    }
  }

  lemma TouchedAfterSnoc<K, V>(capacity: nat, ops: seq<Operation<K, V>>, i: nat)
    requires i + 1 < |ops|
    ensures var n := |ops| - 1; var x := ops[n];
            TouchedAfter(capacity, ops, i) == TouchedAfter(capacity, ops[..n], i) +
            (if !x.DoClear? && TouchesAt(capacity, ops, n, x.key) then {x.key} else {})
  {
    hide TouchesAt;
    var n := |ops| - 1;
    forall j | 0 <= j < n && !ops[j].DoClear?
      ensures TouchesAt(capacity, ops[..n], j, ops[j].key) <==> TouchesAt(capacity, ops, j, ops[j].key)
    {
      TouchesPrefix(capacity, ops, n, j, ops[j].key);
    }
    var a, b := TouchedAfter(capacity, ops, i), TouchedAfter(capacity, ops[..n], i);
    forall x | x in b ensures x in a {
      var j :| i < j < n && !ops[..n][j].DoClear? && ops[..n][j].key == x && TouchesAt(capacity, ops[..n], j, x);
      assert ops[j].key == x;
    }
    forall x | x in a
      ensures x in b || (!ops[n].DoClear? && TouchesAt(capacity, ops, n, ops[n].key) && x == ops[n].key)
    {
      var j :| i < j < |ops| && !ops[j].DoClear? && TouchesAt(capacity, ops, j, ops[j].key) && ops[j].key == x;
      if j < n {
        assert ops[..n][j].key == x;
      }
    }
  }

  /** What the history says of k is what the operations say. */
  lemma {:induction false} TouchesByOperations<K, V>(capacity: nat, ops: seq<Operation<K, V>>, k: K)
    ensures var log := ApplyAll(capacity, [], ops);
            && (Touched(log, k) <==> exists i :: LastTouch(capacity, ops, k, i))
            && forall i :: LastTouch(capacity, ops, k, i) ==> Since(log, k) == TouchedAfter(capacity, ops, i)
    decreases |ops|
  {
    hide Held, TouchedAfter;
    if ops == [] {
    } else {
      var n := |ops| - 1;
      var init, last := ops[..n], ops[n];
      var log0, log := ApplyAll(capacity, [], init), ApplyAll(capacity, [], ops);
      ApplyAllSnoc(capacity, [], ops);
      TouchesByOperations(capacity, init, k);
      if last.DoClear? {
        assert forall i :: !LastTouch(capacity, ops, k, i);
      } else if TouchesAt(capacity, ops, n, k) {
        assert LastTouch(capacity, ops, k, n);
        assert forall i :: LastTouch(capacity, ops, k, i) ==> i == n;
        TouchedLast(log, k);
        NothingAfter(capacity, ops);
      } else {
        forall i | 0 <= i ensures LastTouch(capacity, ops, k, i) <==> LastTouch(capacity, init, k, i) {
          LastTouchStays(capacity, ops, k, i);
        }
        forall i | LastTouch(capacity, ops, k, i) ensures Since(log, k) == TouchedAfter(capacity, ops, i) {
          TouchedAfterSnoc(capacity, ops, i);
          SinceStep(capacity, log0, last, k);
        }
        TouchedStep(capacity, log0, last, k);
      }
    }
  }

  lemma NothingAfter<K, V>(capacity: nat, ops: seq<Operation<K, V>>)
    requires ops != []
    ensures TouchedAfter(capacity, ops, |ops| - 1) == {}
  {
  }

  lemma SinceStep<K, V>(capacity: nat, log: seq<Touch<K, V>>, op: Operation<K, V>, k: K)
    requires !op.DoClear? && !(op.key == k && (op.DoPut? || k in Held(log, capacity)))
    ensures Since(Apply(capacity, log, op), k) ==
            Since(log, k) + (if op.DoPut? || op.key in Held(log, capacity) then {op.key} else {})
  {
    hide Held;
    var log' := Apply(capacity, log, op);
    if |log'| > |log| {
      assert log'[..|log|] == log;
    }
  }

  lemma TouchedStep<K, V>(capacity: nat, log: seq<Touch<K, V>>, op: Operation<K, V>, k: K)
    requires !op.DoClear? && !(op.key == k && (op.DoPut? || k in Held(log, capacity)))
    ensures Touched(Apply(capacity, log, op), k) <==> Touched(log, k)
  {
    hide Held;
    var log' := Apply(capacity, log, op);
    if |log'| > |log| {
      assert log'[..|log|] == log;
      TouchedLast(log', k);
    }
  }

  /**
   After any run, told by the operations: a key is held exactly when some put or successful get
   of it is the last one, nothing was cleared since, and fewer than `capacity` other keys were put
   or successfully got since.
   */
  lemma HeldByOperations<K, V>(capacity: nat, ops: seq<Operation<K, V>>, k: K)
    ensures Holds(capacity, ops, k) <==>
            exists i :: LastTouch(capacity, ops, k, i) && |TouchedAfter(capacity, ops, i)| < capacity
  {
    hide Held, TouchedAfter, LastTouch;
    HeldExactly(ApplyAll(capacity, [], ops), capacity, k);
    TouchesByOperations(capacity, ops, k);
  }

  /** Dropping a key that occurs once. */
  lemma DropOne<K>(a: seq<K>, k: K, b: seq<K>)
    requires k !in a && k !in b
    ensures Drop(a + [k] + b, k) == a + b
  {
    DropSplit(a + [k], b, k);
    DropSplit(a, [k], k);
    DropMembers(a, k);
    DropMembers(b, k);
    assert [k][1..] == [];
    assert a + [] == a;
  }

  /** Forget, push in front, evict: the first n keys of the new order. */
  lemma PutKeys<K>(r: seq<K>, n: nat, k: K)
    requires Distinct(r)
    ensures var pushed := [k] + Drop(Take(r, n), k);
            (if |pushed| > n then pushed[..|pushed| - 1] else pushed) == Take([k] + Drop(r, k), n)
  {
    hide Drop;
    var held := Take(r, n);
    assert Distinct(held);
    DropMembers(held, k);
    if k in held {
      TouchHeld(r, n, k);
      DropLength(held, k);
    } else {
      TouchNew(r, n, k);
    }
  }

  lemma WithoutLast<K>(ks: seq<K>)
    requires Distinct(ks) && ks != []
    ensures var n := |ks| - 1; Distinct(ks[..n]) && Elements(ks[..n]) == Elements(ks) - {ks[n]}
  {
    var n := |ks| - 1;
    assert ks == ks[..n] + [ks[n]];
    assert ks[n] !in ks[..n];
  }
}
