/**
 lru_cache.h as it runs: a list of entries, the latest first, and an index from keys to list
 nodes.  `log` is the ghost history the cache has to agree with.
 */
module LruCache {
  import opened Common
  import opened LruLog

  /** A list node; the index refers to it. */
  class Node<K, V> {
    const key: K
    const value: V

    constructor (key: K, value: V)
      ensures this.key == key && this.value == value
    {
      this.key, this.value := key, value;
    }
  }

  function Keys<K, V>(items: seq<Node<K, V>>): (ks: seq<K>)
    ensures |ks| == |items| && forall i :: 0 <= i < |items| ==> ks[i] == items[i].key
  {
    seq(|items|, i requires 0 <= i < |items| => items[i].key)
  }

  /** list::erase. */
  function Erase<K, V>(items: seq<Node<K, V>>, node: Node<K, V>): seq<Node<K, V>> {
    var p := IndexOf(items, node);
    if p < |items| then items[..p] + items[p + 1..] else items
  }

  lemma KeysSplit<K, V>(a: seq<Node<K, V>>, b: seq<Node<K, V>>)
    ensures Keys(a + b) == Keys(a) + Keys(b)
  {
  }

  lemma EraseSplits<K, V>(items: seq<Node<K, V>>, node: Node<K, V>) returns (a: seq<Node<K, V>>, b: seq<Node<K, V>>)
    requires node in items
    ensures items == a + [node] + b && Erase(items, node) == a + b
  {
    var p := IndexOf(items, node);
    a, b := items[..p], items[p + 1..];
  }

  lemma OthersDiffer<K, V>(a: seq<Node<K, V>>, node: Node<K, V>, b: seq<Node<K, V>>)
    requires Distinct(Keys(a + [node] + b))
    ensures Keys(a + [node] + b) == Keys(a) + [node.key] + Keys(b)
    ensures forall x :: x in a || x in b ==> x.key != node.key
    ensures node.key !in Keys(a) && node.key !in Keys(b)
  {
    KeysSplit(a + [node], b);
    KeysSplit(a, [node]);
    var ks, p := Keys(a + [node] + b), |a|;
    assert Keys([node]) == [node.key] && ks[p] == node.key;
    forall i | 0 <= i < |a| ensures a[i].key != node.key {
      assert ks[i] == a[i].key;
    }
    forall i | 0 <= i < |b| ensures b[i].key != node.key {
      assert ks[p + 1 + i] == b[i].key;
    }
  }

  lemma EraseDrops<K, V>(items: seq<Node<K, V>>, node: Node<K, V>)
    requires node in items && Distinct(Keys(items))
    ensures Keys(Erase(items, node)) == Drop(Keys(items), node.key)
    ensures forall x :: x in Erase(items, node) ==> x in items
    ensures forall x :: x in items && x.key != node.key ==> x in Erase(items, node)
  {
    hide Drop, Erase, Keys;
    var a, b := EraseSplits(items, node);
    OthersDiffer(a, node, b);
    KeysSplit(a, b);
    DropOne(Keys(a), node.key, Keys(b));
  }

  /** The index has exactly the listed keys and leads to the listed nodes. */
  ghost predicate Indexes<K, V>(index: map<K, Node<K, V>>, items: seq<Node<K, V>>) {
    && index.Keys == Elements(Keys(items))
    && forall k :: k in index ==> index[k] in items && index[k].key == k
  }

  /** The listed values are the ones last put. */
  ghost predicate Current<K, V>(log: seq<Touch<K, V>>, items: seq<Node<K, V>>) {
    forall x :: x in items ==> LastPut(log, x.key) == Some(x.value)
  }

  lemma IndexSize<K, V>(index: map<K, Node<K, V>>, items: seq<Node<K, V>>)
    requires Indexes(index, items) && Distinct(Keys(items))
    ensures |index| == |items|
  {
    ElementsSize(Keys(items));
    assert |index| == |index.Keys|;
  }

  lemma EvictKeeps<K, V>(index: map<K, Node<K, V>>, items: seq<Node<K, V>>)
    requires Indexes(index, items) && Distinct(Keys(items)) && items != []
    ensures var n := |items| - 1;
            && Indexes(index - {items[n].key}, items[..n]) && Distinct(Keys(items[..n]))
            && Keys(items[..n]) == Keys(items)[..n]
  {
    var n := |items| - 1;
    WithoutLast(Keys(items));
    assert Keys(items[..n]) == Keys(items)[..n];
    assert items == items[..n] + [items[n]];
  }

  lemma PushKeeps<K, V>(index: map<K, Node<K, V>>, items: seq<Node<K, V>>, node: Node<K, V>)
    requires Indexes(index, items) && Distinct(Keys(items)) && node.key !in Keys(items)
    ensures Indexes(index[node.key := node], [node] + items) && Distinct(Keys([node] + items))
    ensures Keys([node] + items) == [node.key] + Keys(items)
  {
    var ks := Keys(items);
    assert Keys([node] + items) == [node.key] + ks;
    ElementsCons(node.key, ks);
    assert forall j :: 0 < j <= |ks| ==> ([node.key] + ks)[j] == ks[j - 1];
  }

  lemma EraseKeeps<K, V>(index: map<K, Node<K, V>>, items: seq<Node<K, V>>, key: K)
    requires Indexes(index, items) && Distinct(Keys(items)) && key in index
    ensures Indexes(index - {key}, Erase(items, index[key])) && Distinct(Keys(Erase(items, index[key])))
    ensures Keys(Erase(items, index[key])) == Drop(Keys(items), key)
    ensures forall x :: x in Erase(items, index[key]) ==> x in items
  {
    hide Erase, Drop;
    var it := index[key];
    var rest := Erase(items, it);
    EraseDrops(items, it);
    DropMembers(Keys(items), key);
    forall k | k in index - {key} ensures index[k] in rest {
      assert index[k] in items;
    }
    assert (index - {key}).Keys == Elements(Keys(rest));
  }

  lemma PutIsCurrent<K, V>(log: seq<Touch<K, V>>, items: seq<Node<K, V>>, node: Node<K, V>)
    requires Current(log, items) && node.key !in Keys(items)
    ensures Current(log + [Touch.Put(node.key, node.value)], [node] + items)
  {
    hide LastPut;
    var t := Touch.Put(node.key, node.value);
    forall x | x in [node] + items ensures LastPut(log + [t], x.key) == Some(x.value) {
      LastPutTouch(log, t, x.key);
      if x != node {
        assert x in items && x.key in Keys(items) by {
          var i :| 0 <= i < |items| && items[i] == x;
          assert Keys(items)[i] == x.key;
        }
      }
    }
  }

  class Cache<K(==), V> {
    const maxSize: nat
    var items: seq<Node<K, V>>
    var index: map<K, Node<K, V>>
    ghost var log: seq<Touch<K, V>>

    ghost predicate Valid()
      reads this
    {
      Indexes(index, items) && Keys(items) == Held(log, maxSize) && Current(log, items)
    }

    constructor (maxSize: nat)
      ensures Valid() && this.maxSize == maxSize && log == []
    {
      this.maxSize := maxSize;
      items, index, log := [], map[], [];
    }

    method Clear()
      requires Valid()
      modifies this
      ensures Valid() && log == Apply(maxSize, old(log), DoClear)
      ensures items == [] && index == map[]
    {
      items, index, log := [], map[], [];
    }

    /** The first part of put: an old entry of the key goes. */
    method Forget(key: K)
      requires Indexes(index, items) && Distinct(Keys(items)) && Current(log, items)
      modifies this`items, this`index
      ensures Indexes(index, items) && Distinct(Keys(items)) && Current(log, items)
      ensures Keys(items) == Drop(old(Keys(items)), key) && key !in Keys(items)
    {
      hide Drop, Indexes, Distinct, Keys, Current, Erase;
      DropMembers(Keys(items), key);
      KeyIndexed(index, items, key);
      if key in index {
        EraseKeeps(index, items, key);
        CurrentSubset(log, items, Erase(items, index[key]));
        var it := index[key];
        items := Erase(items, it);
        index := index - {key};
      }
    }

    method Put(key: K, value: V)
      requires Valid()
      modifies this
      ensures Valid() && log == Apply(maxSize, old(log), DoPut(key, value))
      ensures maxSize > 0 ==> items != [] && items[0].key == key && items[0].value == value
    {
      hide Recency, Drop, Indexes, Distinct, Keys, Current, Erase, LastPut;
      RecencyDistinct(log);
      HeldDistinct(log, maxSize);
      Forget(key);
      var node := new Node(key, value);
      PushKeeps(index, items, node);
      PutIsCurrent(log, items, node);
      items := [node] + items;
      index := index[key := node];
      IndexSize(index, items);
      PutKeys(Recency(log), maxSize, key);
      ghost var t := Touch.Put(key, value);
      RecencyTouch(log, t);
      log := log + [t];
      KeysSize(items);
      assert items[0] == node;
      if |index| > maxSize {
        EvictKeeps(index, items);
        var last := items[|items| - 1];
        CurrentSubset(log, items, items[..|items| - 1]);
        index := index - {last.key};
        items := items[..|items| - 1];
      }
    }

    /** get: the entry moves to the front and is handed out; None is the thrown range_error. */
    method Get(key: K) returns (r: Option<Node<K, V>>)
      requires Valid()
      modifies this
      ensures Valid() && log == Apply(maxSize, old(log), DoGet(key))
      ensures r.Some? <==> key in Held(old(log), maxSize)
      ensures r.Some? ==> items != [] && r.value == items[0] && r.value.key == key
      ensures r.Some? ==> LastPut(old(log), key) == Some(r.value.value)
    {
      hide Recency, Drop, LastPut, Erase, Distinct, Keys;
      HeldDistinct(log, maxSize);
      RecencyDistinct(log);
      KeyIndexed(index, items, key);
      if key !in index {
        return None;
      }
      var it := index[key];
      SpliceKeeps(index, items, key, log);
      RecencyTouch(log, Got(key));
      TouchHeld(Recency(log), maxSize, key);
      items := [it] + Erase(items, it);
      log := log + [Got(key)];
      return Some(it);
    }

    method Exists(key: K) returns (b: bool)
      requires Valid()
      ensures b == (key in Held(log, maxSize))
      ensures b <==> Touched(log, key) && |Since(log, key)| < maxSize
    {
      HeldExactly(log, maxSize, key);
      return key in index;
    }

    method Size() returns (n: nat)
      requires Valid()
      ensures n == |Held(log, maxSize)| <= maxSize
    {
      HeldDistinct(log, maxSize);
      IndexSize(index, items);
      return |index|;
    }
  }

  lemma KeysSize<K, V>(items: seq<Node<K, V>>)
    ensures |Keys(items)| == |items|
  {
  }

  lemma KeyIndexed<K, V>(index: map<K, Node<K, V>>, items: seq<Node<K, V>>, key: K)
    requires Indexes(index, items)
    ensures key in index <==> key in Keys(items)
    ensures key in index ==> index[key] in items && index[key].key == key
  {
    assert key in Elements(Keys(items)) <==> key in Keys(items);
  }

  lemma CurrentSubset<K, V>(log: seq<Touch<K, V>>, items: seq<Node<K, V>>, fewer: seq<Node<K, V>>)
    requires Current(log, items) && forall x :: x in fewer ==> x in items
    ensures Current(log, fewer)
  {
  }

  lemma SpliceKeeps<K, V>(index: map<K, Node<K, V>>, items: seq<Node<K, V>>, key: K, log: seq<Touch<K, V>>)
    requires Indexes(index, items) && Distinct(Keys(items)) && key in index && Current(log, items)
    ensures var moved := [index[key]] + Erase(items, index[key]);
            Indexes(index, moved) && Keys(moved) == [key] + Drop(Keys(items), key) && Current(log + [Got(key)], moved)
  {
    hide Erase, Drop, LastPut;
    var it := index[key];
    var rest := Erase(items, it);
    EraseDrops(items, it);
    DropMembers(Keys(items), key);
    assert Keys([it] + rest) == [key] + Keys(rest);
    ElementsCons(key, Keys(rest));
    forall x | x in [it] + rest ensures LastPut(log + [Got(key)], x.key) == Some(x.value) {
      LastPutTouch(log, Got(key), x.key);
      assert x in items;
    }
  }

  lemma RecencyTouch<K, V>(log: seq<Touch<K, V>>, t: Touch<K, V>)
    ensures Recency(log + [t]) == [t.key] + Drop(Recency(log), t.key)
  {
    assert (log + [t])[..|log|] == log;
  }

  lemma LastPutTouch<K, V>(log: seq<Touch<K, V>>, t: Touch<K, V>, k: K)
    ensures LastPut(log + [t], k) == if t.Put? && t.key == k then Some(t.value) else LastPut(log, k)
  {
    assert (log + [t])[..|log|] == log;
  }

  /** Any run of operations on a fresh cache ends in the state its history calls for. */
  method Replay<K(==), V>(maxSize: nat, ops: seq<Operation<K, V>>) returns (c: Cache<K, V>)
    ensures c.Valid() && c.maxSize == maxSize && c.log == ApplyAll(maxSize, [], ops)
  {
    c := new Cache(maxSize);
    var i := 0;
    assert ops[0..] == ops;
    while i < |ops|
      invariant i <= |ops| && fresh(c) && c.Valid() && c.maxSize == maxSize
      invariant ApplyAll(maxSize, c.log, ops[i..]) == ApplyAll(maxSize, [], ops)
    {
      assert ops[i..][1..] == ops[i + 1..];
      match ops[i] {
        case DoPut(k, v) => c.Put(k, v);
        case DoGet(k) => var r := c.Get(k);
        case DoClear => c.Clear();
      }
      i := i + 1;
    }
  }

  lemma HeldDistinct<K, V>(log: seq<Touch<K, V>>, n: nat)
    ensures Distinct(Held(log, n))
  {
    RecencyDistinct(log);
  }
}
