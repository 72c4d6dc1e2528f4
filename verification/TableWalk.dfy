/** The order of traversals, and borders. */
module TableWalk {
  import opened TableNodes
  import opened TableSizes
  import opened TableMaps
  import opened TableCounts
  import opened Wrappers

  /** The position of a key, the array part first; nil is before all others and
      -2 stands for an absent key. */
  function Index(items: seq<Value>, node: seq<Node>, key: Value): (i: int)
    ensures -2 <= i < |items| + |node|
  {
    if key == Nil then -1
    else if InArray(items, key) then key.n - 1
    else if IndexOf(node, key) == -1 then -2
    else |items| + IndexOf(node, key)
  }

  function ValueAt(items: seq<Value>, node: seq<Node>, j: int): Value
    requires 0 <= j < |items| + |node|
  {
    if j < |items| then items[j] else node[j - |items|].val
  }

  /** `i` is the first position after `key` that has a value, or the end. */
  ghost predicate NextIndex(items: seq<Value>, node: seq<Node>, key: Value, i: int) {
    true <==> (
      && Index(items, node, key) < i <= |items| + |node|
      && (forall j :: Index(items, node, key) < j < i && 0 <= j ==> ValueAt(items, node, j) == Nil)
      && (i < |items| + |node| ==> 0 <= i && ValueAt(items, node, i) != Nil)
    )
  }

  lemma EntryAt(hash: Hash, items: seq<Value>, node: seq<Node>, dummy: bool, lastfree: int, rank: seq<nat>, top: nat,
      i: nat)
    requires TableOk(hash, items, node, dummy, lastfree, rank, top, -1) && i < |node| && node[i].val != Nil
    ensures node[i].key != Nil && Index(items, node, node[i].key) == |items| + i
      && Raw(items, node, node[i].key) == node[i].val
  {
    TableFacts(hash, items, node, dummy, lastfree, rank, top, -1);
    KeyAt(node, i);
    assert HashKey(items, node[i].key);
  }

  lemma FreeHasNothing(items: seq<Value>, node: seq<Node>)
    requires AllFree(node) && forall i :: 0 <= i < |items| ==> items[i] == Nil
    ensures forall k :: Raw(items, node, k) == Nil
  {
  }

  // ----- the border -----

  /** `n` has a value, or is zero, and `n` + 1 has none. */
  ghost predicate IsBorder(items: seq<Value>, node: seq<Node>, n: nat) {
    (n == 0 || Raw(items, node, Int(n)) != Nil) && Raw(items, node, Int(n + 1)) == Nil
  }

  /** A run of values from 1 is no longer than the table. */
  lemma RunIsShort(items: seq<Value>, node: seq<Node>, i: nat)
    requires i >= 1 && forall k :: 1 <= k < i ==> Raw(items, node, Int(k)) != Nil
    ensures i <= |Live(items, node)| + 1
  {
    var run := Run(i - 1);
    IntsSize(run, i - 1);
    assert UpTo(run, i - 1) == run;
    forall k | k in run
      ensures Int(k) in Live(items, node)
    {
      RawIsLive(items, node, Int(k));
    }
    SizeBelow(Ints(run), Live(items, node));
  }

  /** The integers from 1 to n. */
  ghost function Run(n: nat): (s: set<int>)
    ensures |s| == n && forall k :: k in s <==> 1 <= k <= n
  {
    if n == 0 then {} else Run(n - 1) + {n}
  }

  lemma RawIsLive(items: seq<Value>, node: seq<Node>, k: Value)
    requires k != Nil && Raw(items, node, k) != Nil
    ensures k in Live(items, node)
  {
    if InArray(items, k) {
      assert k == Int(k.n) && items[k.n - 1] != Nil;
    }
  }

  // ----- a traversal -----

  /** The entries up to `key` have been visited, and no others; they have new
      values. No key has moved. */
  ghost predicate Visiting(items0: seq<Value>, node0: seq<Node>, items: seq<Value>, node: seq<Node>,
                           key: Value, keys: seq<Value>, assign: (Value, Value) -> Value)
  {
    true <==> (
      && SamePlaces(items0, node0, items, node) && Index(items0, node0, key) >= -1
      && (forall k :: k in keys <==>
        k != Nil && Raw(items0, node0, k) != Nil && Index(items0, node0, k) <= Index(items0, node0, key))
      && Distinct(keys)
      && (forall k :: k != Nil ==>
        Raw(items, node, k) == if k in keys then assign(k, Raw(items0, node0, k)) else Raw(items0, node0, k))
    )
  }

  lemma VisitStart(items: seq<Value>, node: seq<Node>, assign: (Value, Value) -> Value)
    ensures Visiting(items, node, items, node, Nil, [], assign)
  {
  }

  lemma SameOrder(items0: seq<Value>, node0: seq<Node>, items: seq<Value>, node: seq<Node>, key: Value)
    requires SamePlaces(items0, node0, items, node)
    ensures Index(items, node, key) == Index(items0, node0, key)
  {
    SameIndex(node0, node, key);
  }

  lemma VisitFacts(items0: seq<Value>, node0: seq<Node>, items: seq<Value>, node: seq<Node>,
                   key: Value, keys: seq<Value>, assign: (Value, Value) -> Value)
    requires Visiting(items0, node0, items, node, key, keys, assign)
    ensures Index(items, node, key) == Index(items0, node0, key) >= -1
  {
    SameOrder(items0, node0, items, node, key);
  }

  lemma ValueAtIndex(items: seq<Value>, node: seq<Node>, k: Value)
    requires k != Nil && Index(items, node, k) >= 0
    ensures ValueAt(items, node, Index(items, node, k)) == Raw(items, node, k)
  {
  }

  lemma OneIndex(items: seq<Value>, node: seq<Node>, a: Value, b: Value)
    requires a != Nil && b != Nil && Index(items, node, a) == Index(items, node, b) >= 0
    ensures a == b
  {
  }

  lemma ValueHasIndex(items: seq<Value>, node: seq<Node>, k: Value)
    requires k != Nil && Raw(items, node, k) != Nil
    ensures Index(items, node, k) >= 0 && (InArray(items, k) || k in KeysOf(node))
  {
  }

  /** At the end there is no entry that was not visited. */
  lemma VisitedAll(items0: seq<Value>, node0: seq<Node>, items: seq<Value>, node: seq<Node>,
                   key: Value, keys: seq<Value>, assign: (Value, Value) -> Value)
    requires Visiting(items0, node0, items, node, key, keys, assign)
    requires NextIndex(items, node, key, |items| + |node|)
    ensures forall k :: k in keys <==> k != Nil && Raw(items0, node0, k) != Nil
    ensures Distinct(keys)
    ensures forall k :: k != Nil ==>
      Raw(items, node, k) == if k in keys then assign(k, Raw(items0, node0, k)) else Raw(items0, node0, k)
  {
    SameOrder(items0, node0, items, node, key);
    forall k | k != Nil && Raw(items0, node0, k) != Nil
      ensures k in keys
    {
      if k !in keys {
        assert Raw(items, node, k) == Raw(items0, node0, k);
        SameOrder(items0, node0, items, node, k);
        ValueHasIndex(items, node, k);
        ValueAtIndex(items, node, k);
      }
    }
  }

  /** The next entry is a new one. */
  lemma VisitNext(items0: seq<Value>, node0: seq<Node>, items: seq<Value>, node: seq<Node>,
                  key: Value, k: Value, keys: seq<Value>, assign: (Value, Value) -> Value)
    requires Visiting(items0, node0, items, node, key, keys, assign)
    requires k != Nil && Raw(items, node, k) != Nil && NextIndex(items, node, key, Index(items, node, k))
    ensures InArray(items, k) || k in KeysOf(node)
    ensures k !in keys && Raw(items, node, k) == Raw(items0, node0, k)
    ensures Index(items0, node0, key) < Index(items0, node0, k) < |items0| + |node0|
    ensures forall j :: j in keys + [k] <==>
      j != Nil && Raw(items0, node0, j) != Nil && Index(items0, node0, j) <= Index(items0, node0, k)
  {
    SameOrder(items0, node0, items, node, key);
    SameOrder(items0, node0, items, node, k);
    ValueHasIndex(items, node, k);
    forall j
      ensures j in keys + [k] <==>
        j != Nil && Raw(items0, node0, j) != Nil && Index(items0, node0, j) <= Index(items0, node0, k)
    {
      if j != Nil && j != k && j !in keys && Raw(items0, node0, j) != Nil {
        NotBetween(items0, node0, items, node, key, k, j, keys, assign);
      }
    }
  }

  lemma NotBetween(items0: seq<Value>, node0: seq<Node>, items: seq<Value>, node: seq<Node>,
                   key: Value, k: Value, j: Value, keys: seq<Value>, assign: (Value, Value) -> Value)
    requires Visiting(items0, node0, items, node, key, keys, assign)
    requires k != Nil && Raw(items, node, k) != Nil && NextIndex(items, node, key, Index(items, node, k))
    requires j != Nil && j != k && j !in keys && Raw(items0, node0, j) != Nil
    ensures Index(items0, node0, j) > Index(items0, node0, k)
  {
    SameOrder(items0, node0, items, node, key);
    SameOrder(items0, node0, items, node, k);
    SameOrder(items0, node0, items, node, j);
    assert Raw(items, node, j) == Raw(items0, node0, j);
    ValueHasIndex(items, node, j);
    ValueHasIndex(items, node, k);
    ValueAtIndex(items, node, j);
    if Index(items, node, j) == Index(items, node, k) {
      OneIndex(items, node, j, k);
    }
  }

  /** Assigning to the entry visited. */
  lemma Visited(items0: seq<Value>, node0: seq<Node>, items: seq<Value>, node: seq<Node>,
                items': seq<Value>, node': seq<Node>,
                key: Value, k: Value, keys: seq<Value>, assign: (Value, Value) -> Value)
    requires Visiting(items0, node0, items, node, key, keys, assign)
    requires k != Nil && Raw(items, node, k) != Nil && NextIndex(items, node, key, Index(items, node, k))
    requires SamePlaces(items, node, items', node')
    requires Updated(items, node, items', node', k, assign(k, Raw(items, node, k)))
    ensures Visiting(items0, node0, items', node', k, keys + [k], assign)
  {
    VisitNext(items0, node0, items, node, key, k, keys, assign);
    SameOrder(items0, node0, items, node, k);
    assert Index(items0, node0, k) >= -1;
  }
}
