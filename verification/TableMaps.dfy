/** The map that an array part and a hash part stand for. */
module TableMaps {
  import opened TableNodes
  import opened TableSizes

  predicate InArray(items: seq<Value>, key: Value) {
    key.Int? && 1 <= key.n <= |items|
  }

  /** The first node with this key, or -1. */
  function IndexOf(node: seq<Node>, key: Value): (i: int)
    ensures i == -1 || (0 <= i < |node| && node[i].key == key)
    ensures i == -1 ==> forall j :: 0 <= j < |node| ==> node[j].key != key
    decreases |node|
  {
    if node == [] then -1
    else
      var i := IndexOf(node[..|node| - 1], key);
      if i != -1 then i else if node[|node| - 1].key == key then |node| - 1 else -1
  }

  function RawNode(node: seq<Node>, key: Value): Value {
    var i := IndexOf(node, key);
    if i == -1 then Nil else node[i].val
  }

  /** The value of a key: nil unless an entry says otherwise. */
  function Raw(items: seq<Value>, node: seq<Node>, key: Value): Value {
    if InArray(items, key) then items[key.n - 1] else RawNode(node, key)
  }

  ghost function KeysOf(node: seq<Node>): set<Value> {
    set i | 0 <= i < |node| && node[i].key != Nil :: node[i].key
  }

  /** The keys with a value. */
  ghost function Live(items: seq<Value>, node: seq<Node>): set<Value> {
    (set i | 1 <= i <= |items| && items[i - 1] != Nil :: Int(i))
    + (set i | 0 <= i < |node| && node[i].key != Nil && node[i].val != Nil :: node[i].key)
  }

  lemma KeyAt(node: seq<Node>, n: nat)
    requires UniqueKeys(node) && n < |node| && node[n].key != Nil
    ensures IndexOf(node, node[n].key) == n
  {
    var i := IndexOf(node, node[n].key);
    assert node[i].key == node[n].key;
  }

  lemma NoKey(node: seq<Node>, key: Value)
    requires forall i :: 0 <= i < |node| ==> node[i].key != key
    ensures IndexOf(node, key) == -1
  {
  }

  lemma NilHasNoValue(node: seq<Node>)
    requires Linked(node)
    ensures RawNode(node, Nil) == Nil
  {
  }

  lemma AllOnChain(hash: Hash, node: seq<Node>, rank: seq<nat>, top: nat, key: Value)
    requires NodesOk(hash, node, rank, top) && key != Nil
    ensures forall i :: 0 <= i < |node| && node[i].key == key ==>
      On(node, rank, top, MainPosition(hash, |node|, key), i)
  {
    forall i | 0 <= i < |node| && node[i].key == key
      ensures On(node, rank, top, MainPosition(hash, |node|, key), i)
    {
      assert Homed(hash, node, rank, top, i);
    }
  }

  /** The rest of the chain still has all nodes with the key. */
  lemma ChainOn(node: seq<Node>, rank: seq<nat>, top: nat, n: nat, key: Value)
    requires Ordered(node, rank, top) && n < |node| && node[n].key != key
    requires forall i :: 0 <= i < |node| && node[i].key == key ==> On(node, rank, top, n, i)
    ensures node[n].next == -1 || (0 <= node[n].next < |node| && rank[n] < rank[node[n].next] <= top)
    ensures node[n].next != -1 ==>
      forall i :: 0 <= i < |node| && node[i].key == key ==> On(node, rank, top, node[n].next, i)
    ensures node[n].next == -1 ==> forall i :: 0 <= i < |node| ==> node[i].key != key
  {
    assert LinkOk(node, rank, top, n);
    if node[n].next != -1 {
      assert LinkOk(node, rank, top, node[n].next);
    }
    forall i | 0 <= i < |node| && node[i].key == key
      ensures node[n].next != -1 && On(node, rank, top, node[n].next, i)
    {
      OnNext(node, rank, top, n, i);
    }
  }

  /** The same entries, but for the new key, which has no value yet. */
  ghost predicate SameValues(node: seq<Node>, node': seq<Node>) {
    true <==> (forall k :: k != Nil ==> RawNode(node', k) == RawNode(node, k))
  }

  lemma ValuesBy(node: seq<Node>, node': seq<Node>, key: Value)
    requires UniqueKeys(node) && UniqueKeys(node') && Linked(node) && Linked(node')
    requires forall i :: 0 <= i < |node| ==> node[i].key != key
    requires forall i :: 0 <= i < |node| && node[i].val != Nil ==>
      exists j :: 0 <= j < |node'| && node'[j].key == node[i].key && node'[j].val == node[i].val
    requires forall j :: 0 <= j < |node'| && node'[j].val != Nil ==>
      exists i :: 0 <= i < |node| && node[i].key == node'[j].key && node[i].val == node'[j].val
    ensures SameValues(node, node')
  {
    forall k | k != Nil
      ensures RawNode(node', k) == RawNode(node, k)
    {
      var v, v' := RawNode(node, k), RawNode(node', k);
      RawIff(node, k, v);
      RawIff(node', k, v);
      RawIff(node, k, v');
      RawIff(node', k, v');
    }
  }

  /** A value is found exactly when some node has it. */
  lemma RawIff(node: seq<Node>, k: Value, v: Value)
    requires UniqueKeys(node) && k != Nil
    ensures v != Nil ==>
      (RawNode(node, k) == v <==> exists i :: 0 <= i < |node| && node[i].key == k && node[i].val == v)
  {
    forall i | 0 <= i < |node| && node[i].key == k
      ensures IndexOf(node, k) == i
    {
      KeyAt(node, i);
    }
  }

  lemma MovedValues(node: seq<Node>, mp: nat, n: nat, q: nat, key: Value)
    requires UniqueKeys(node) && Linked(node) && key != Nil && mp < |node| && n < |node| && q < |node| && n != mp
      && q != n && q != mp
    requires node[n].key == Nil && node[mp].key != Nil && forall i :: 0 <= i < |node| ==> node[i].key != key
    requires UniqueKeys(Moved(node, mp, n, q, key)) && Linked(Moved(node, mp, n, q, key))
    ensures SameValues(node, Moved(node, mp, n, q, key))
    ensures KeysOf(Moved(node, mp, n, q, key)) <= KeysOf(node) + {key}
  {
    var node' := Moved(node, mp, n, q, key);
    forall i | 0 <= i < |node| && node[i].val != Nil
      ensures exists j :: 0 <= j < |node'| && node'[j].key == node[i].key && node'[j].val == node[i].val
    {
      var j := if i == mp then n else i;
      assert node'[j].key == node[i].key && node'[j].val == node[i].val;
    }
    forall j | 0 <= j < |node'| && node'[j].val != Nil
      ensures exists i :: 0 <= i < |node| && node[i].key == node'[j].key && node[i].val == node'[j].val
    {
      var i := if j == n then mp else j;
      assert node[i].key == node'[j].key && node[i].val == node'[j].val;
    }
    ValuesBy(node, node', key);
  }

  lemma ChainedValues(node: seq<Node>, mp: nat, n: nat, key: Value)
    requires UniqueKeys(node) && Linked(node) && key != Nil && mp < |node| && n < |node| && n != mp
    requires node[n].key == Nil && forall i :: 0 <= i < |node| ==> node[i].key != key
    requires UniqueKeys(Chained(node, mp, n, key)) && Linked(Chained(node, mp, n, key))
    ensures SameValues(node, Chained(node, mp, n, key))
    ensures KeysOf(Chained(node, mp, n, key)) <= KeysOf(node) + {key}
  {
    var node' := Chained(node, mp, n, key);
    forall i | 0 <= i < |node|
      ensures node[i].val != Nil ==> node'[i].key == node[i].key && node'[i].val == node[i].val
      ensures node'[i].val != Nil ==> node'[i].key == node[i].key && node'[i].val == node[i].val
    {
    }
    ValuesBy(node, node', key);
  }

  lemma PlacedValues(node: seq<Node>, mp: nat, key: Value)
    requires UniqueKeys(node) && Linked(node) && key != Nil && mp < |node| && node[mp].val == Nil
    requires forall i :: 0 <= i < |node| ==> node[i].key != key
    requires UniqueKeys(Placed(node, mp, key)) && Linked(Placed(node, mp, key))
    ensures SameValues(node, Placed(node, mp, key))
    ensures KeysOf(Placed(node, mp, key)) <= KeysOf(node) + {key}
  {
    var node' := Placed(node, mp, key);
    forall i | 0 <= i < |node|
      ensures node[i].val != Nil ==> node'[i].key == node[i].key && node'[i].val == node[i].val
      ensures node'[i].val != Nil ==> node'[i].key == node[i].key && node'[i].val == node[i].val
    {
    }
    ValuesBy(node, node', key);
  }

  /** All keys have the values they had. */
  ghost predicate SameTable(items: seq<Value>, node: seq<Node>, items': seq<Value>, node': seq<Node>) {
    true <==> (forall k :: k != Nil ==> Raw(items', node', k) == Raw(items, node, k))
  }

  /** One key has a new value. */
  ghost predicate Updated(items: seq<Value>, node: seq<Node>, items': seq<Value>, node': seq<Node>, key: Value,
      val: Value)
  {
    true <==> (forall k :: k != Nil ==> Raw(items', node', k) == if k == key then val else Raw(items, node, k))
  }

  lemma SameNodes(items: seq<Value>, node: seq<Node>, node': seq<Node>)
    requires SameValues(node, node')
    ensures SameTable(items, node, items, node')
  {
  }

  lemma NotInKeys(node: seq<Node>, key: Value)
    requires Absent(node, key)
    ensures key !in KeysOf(node)
  {
  }

  ghost function Prefix(node: seq<Node>, n: nat): set<Value> {
    set i | 0 <= i < n && i < |node| :: node[i].key
  }

  lemma {:induction false} PrefixSize(node: seq<Node>, n: nat)
    requires n <= |node| && UniqueKeys(node) && forall i :: 0 <= i < |node| ==> node[i].key != Nil
    ensures |Prefix(node, n)| == n
  {
    if n == 0 {
      assert Prefix(node, 0) == {};
    } else {
      PrefixSize(node, n - 1);
      assert Prefix(node, n) == Prefix(node, n - 1) + {node[n - 1].key};
      assert node[n - 1].key !in Prefix(node, n - 1);
    }
  }

  /** Without a free node there are as many keys as nodes. */
  lemma FullNode(node: seq<Node>)
    requires UniqueKeys(node)
    ensures (forall i :: 0 <= i < |node| ==> node[i].key != Nil) ==> |KeysOf(node)| == |node|
  {
    if forall i :: 0 <= i < |node| ==> node[i].key != Nil {
      PrefixSize(node, |node|);
      assert Prefix(node, |node|) == KeysOf(node);
    }
  }

  lemma StoredItem(items: seq<Value>, node: seq<Node>, i: nat, val: Value)
    requires i < |items|
    ensures Updated(items, node, items[i := val], node, Int(i + 1), val)
  {
  }

  lemma StoredOk(hash: Hash, node: seq<Node>, rank: seq<nat>, top: nat, i: nat, val: Value)
    requires NodesOk(hash, node, rank, top) && i < |node| && node[i].key != Nil
    ensures NodesOk(hash, node[i := node[i].(val := val)], rank, top)
  {
    var node' := node[i := node[i].(val := val)];
    forall j | 0 <= j < |node'|
      ensures LinkOk(node', rank, top, j)
    {
      assert LinkOk(node, rank, top, j);
    }
    forall j | 0 <= j < |node'| && Keyed(node', j)
      ensures Homed(hash, node', rank, top, j)
    {
      assert Homed(hash, node, rank, top, j);
      OnSame(node, node', rank, top, rank, top, MainPosition(hash, |node|, node[j].key), j);
    }
  }

  lemma StoredNode(items: seq<Value>, node: seq<Node>, i: nat, val: Value)
    requires i < |node| && UniqueKeys(node) && node[i].key != Nil && !InArray(items, node[i].key)
    ensures Updated(items, node, items, node[i := node[i].(val := val)], node[i].key, val)
    ensures KeysOf(node[i := node[i].(val := val)]) == KeysOf(node)
  {
    var node' := node[i := node[i].(val := val)];
    forall k | k != Nil
      ensures RawNode(node', k) == if k == node[i].key then val else RawNode(node, k)
    {
      SameIndex(node, node', k);
      KeyAt(node, i);
    }
    forall k
      ensures k in KeysOf(node') <==> k in KeysOf(node)
    {
      if k in KeysOf(node) {
        var j :| 0 <= j < |node| && node[j].key != Nil && node[j].key == k;
        assert node'[j].key == k;
      }
      if k in KeysOf(node') {
        var j :| 0 <= j < |node'| && node'[j].key != Nil && node'[j].key == k;
        assert node[j].key == k;
      }
    }
  }

  lemma {:induction false} SameIndex(node: seq<Node>, node': seq<Node>, k: Value)
    requires |node'| == |node| && forall j :: 0 <= j < |node| ==> node'[j].key == node[j].key
    ensures IndexOf(node', k) == IndexOf(node, k)
    decreases |node|
  {
    if node != [] {
      SameIndex(node[..|node| - 1], node'[..|node| - 1], k);
    }
  }

  lemma UpdateAfter(items: seq<Value>, node: seq<Node>, items1: seq<Value>, node1: seq<Node>, items2: seq<Value>,
      node2: seq<Node>, key: Value, val: Value)
    requires SameTable(items, node, items1, node1) && Updated(items1, node1, items2, node2, key, val)
    ensures Updated(items, node, items2, node2, key, val)
  {
  }

  // ----- the whole table -----

  /** The invariant of a table. Free nodes are below `lastfree`, but for `n`, and
      no node has a key of the array part. */
  ghost predicate TableOk(hash: Hash, items: seq<Value>, node: seq<Node>, dummy: bool, lastfree: int, rank: seq<nat>,
      top: nat, n: int)
  {
    true <==> (
      && NodesOk(hash, node, rank, top) && |items| <= MAXASIZE
      && (dummy ==> node == [Node(Nil, Nil, -1)] && lastfree <= 0)
      && lastfree <= |node|
      && (!dummy ==> FreeBelow(node, lastfree, n))
      && (forall i :: 0 <= i < |node| && node[i].key != Nil ==> HashKey(items, node[i].key))
    )
  }

  ghost predicate FreeBelow(node: seq<Node>, lastfree: int, n: int) {
    forall i :: 0 <= i < |node| && node[i].key == Nil && i != n ==> i < lastfree
  }

  predicate HashKey(items: seq<Value>, key: Value) {
    key != NaN && !InArray(items, key)
  }

  /** No node has this key. */
  ghost predicate Absent(node: seq<Node>, key: Value) {
    true <==> (forall i :: 0 <= i < |node| ==> node[i].key != key)
  }

  /** A node can be found for one more key. */
  ghost predicate Room(node: seq<Node>, dummy: bool) {
    !dummy && |KeysOf(node)| < |node|
  }

  lemma TableFacts(hash: Hash, items: seq<Value>, node: seq<Node>, dummy: bool, lastfree: int, rank: seq<nat>, top: nat,
      n: int)
    requires TableOk(hash, items, node, dummy, lastfree, rank, top, n)
    ensures NodesOk(hash, node, rank, top) && |node| > 0 && UniqueKeys(node) && Linked(node) && |items| <= MAXASIZE
      && lastfree <= |node|
    ensures dummy ==> node == [Node(Nil, Nil, -1)] && lastfree <= 0
    ensures !dummy ==> FreeBelow(node, lastfree, n)
    ensures forall i :: 0 <= i < |node| && node[i].key != Nil ==> HashKey(items, node[i].key)
  {
  }

  lemma MovedTable(hash: Hash, items: seq<Value>, node: seq<Node>, lastfree: int, rank: seq<nat>, top: nat, mp: nat,
      n: nat, q: nat, key: Value)
    requires TableOk(hash, items, node, false, lastfree, rank, top, n) && key != Nil && HashKey(items, key)
      && Absent(node, key)
    requires |node| > 0 && mp == MainPosition(hash, |node|, key) && n < |node| && node[n].key == Nil && q < |node|
    requires node[mp].key != Nil && MainPosition(hash, |node|, node[mp].key) != mp && node[q].next == mp
    requires |rank| == |node|
    ensures TableOk(hash, items, Moved(node, mp, n, q, key), false, lastfree, rank[n := rank[mp]], top, -1)
    ensures SameValues(node, Moved(node, mp, n, q, key)) && KeysOf(Moved(node, mp, n, q, key)) <= KeysOf(node) + {key}
    ensures |Moved(node, mp, n, q, key)| == |node| && Moved(node, mp, n, q, key)[mp].key == key
  {
    TableFacts(hash, items, node, false, lastfree, rank, top, n);
    var node' := Moved(node, mp, n, q, key);
    assert LinkOk(node, rank, top, q);
    MovedOk(hash, node, rank, top, n, q, key);
    MovedLinked(node, rank, top, mp, n, q, key);
    MovedValues(node, mp, n, q, key);
    forall i | 0 <= i < |node'|
      ensures node'[i].key != Nil ==> HashKey(items, node'[i].key)
      ensures node'[i].key == Nil ==> i < lastfree
    {
      var was := if i == n then mp else i;
      assert i != mp ==> node'[i].key == node[was].key;
    }
    assert FreeBelow(node', lastfree, -1);
  }

  lemma ChainedTable(hash: Hash, items: seq<Value>, node: seq<Node>, lastfree: int, rank: seq<nat>, top: nat, mp: nat,
      n: nat, key: Value)
    requires TableOk(hash, items, node, false, lastfree, rank, top, n) && key != Nil && HashKey(items, key)
      && Absent(node, key)
    requires |node| > 0 && mp == MainPosition(hash, |node|, key) && n < |node| && node[n].key == Nil
    requires node[mp].key != Nil && MainPosition(hash, |node|, node[mp].key) == mp
    requires |rank| == |node|
    ensures TableOk(hash, items, Chained(node, mp, n, key), false, lastfree, Doubled(rank, mp, n), 2 * top + 1, -1)
    ensures SameValues(node, Chained(node, mp, n, key)) && KeysOf(Chained(node, mp, n, key)) <= KeysOf(node) + {key}
    ensures |Chained(node, mp, n, key)| == |node| && Chained(node, mp, n, key)[n].key == key
  {
    TableFacts(hash, items, node, false, lastfree, rank, top, n);
    var node' := Chained(node, mp, n, key);
    ChainedOk(hash, node, rank, top, n, key);
    NodesFacts(hash, node', Doubled(rank, mp, n), 2 * top + 1);
    ChainedValues(node, mp, n, key);
    assert FreeBelow(node', lastfree, -1);
  }

  lemma PlacedTable(hash: Hash, items: seq<Value>, node: seq<Node>, dummy: bool, lastfree: int, rank: seq<nat>,
      top: nat, mp: nat, key: Value)
    requires TableOk(hash, items, node, dummy, lastfree, rank, top, -1) && !dummy && key != Nil && HashKey(items, key)
      && Absent(node, key)
    requires |node| > 0 && mp == MainPosition(hash, |node|, key) && node[mp].val == Nil
    ensures TableOk(hash, items, Placed(node, mp, key), dummy, lastfree, rank, top, -1)
    ensures SameValues(node, Placed(node, mp, key)) && KeysOf(Placed(node, mp, key)) <= KeysOf(node) + {key}
    ensures |Placed(node, mp, key)| == |node| && Placed(node, mp, key)[mp].key == key
  {
    TableFacts(hash, items, node, dummy, lastfree, rank, top, -1);
    var node' := Placed(node, mp, key);
    PlacedOk(hash, node, rank, top, key);
    NodesFacts(hash, node', rank, top);
    PlacedValues(node, mp, key);
    assert FreeBelow(node', lastfree, -1);
  }

  lemma NodesFacts(hash: Hash, node: seq<Node>, rank: seq<nat>, top: nat)
    requires NodesOk(hash, node, rank, top)
    ensures UniqueKeys(node) && Linked(node) && Ordered(node, rank, top) && |rank| == |node| > 0
  {
  }

  /** The predecessor search starts at the home of the colliding key, which is
      on the chain before it. */
  lemma HomeAhead(hash: Hash, node: seq<Node>, rank: seq<nat>, top: nat, mp: nat)
    requires NodesOk(hash, node, rank, top) && mp < |node| && node[mp].key != Nil
    ensures Ordered(node, rank, top) && On(node, rank, top, MainPosition(hash, |node|, node[mp].key), mp)
  {
    assert Homed(hash, node, rank, top, mp);
  }

  lemma StoredTable(hash: Hash, items: seq<Value>, node: seq<Node>, dummy: bool, lastfree: int, rank: seq<nat>,
      top: nat, i: nat, val: Value)
    requires TableOk(hash, items, node, dummy, lastfree, rank, top, -1) && i < |node| && node[i].key != Nil
    ensures TableOk(hash, items, node[i := node[i].(val := val)], dummy, lastfree, rank, top, -1)
    ensures Updated(items, node, items, node[i := node[i].(val := val)], node[i].key, val)
    ensures KeysOf(node[i := node[i].(val := val)]) == KeysOf(node)
  {
    TableFacts(hash, items, node, dummy, lastfree, rank, top, -1);
    StoredOk(hash, node, rank, top, i, val);
    assert HashKey(items, node[i].key);
    StoredNode(items, node, i, val);
    assert !dummy ==> FreeBelow(node[i := node[i].(val := val)], lastfree, -1);
  }

  lemma ItemTable(hash: Hash, items: seq<Value>, node: seq<Node>, dummy: bool, lastfree: int, rank: seq<nat>, top: nat,
      i: nat, val: Value)
    requires TableOk(hash, items, node, dummy, lastfree, rank, top, -1) && i < |items|
    ensures TableOk(hash, items[i := val], node, dummy, lastfree, rank, top, -1)
    ensures Updated(items, node, items[i := val], node, Int(i + 1), val)
  {
    StoredItem(items, node, i, val);
  }

  /** All keys stay where they are. */
  ghost predicate SamePlaces(items: seq<Value>, node: seq<Node>, items': seq<Value>, node': seq<Node>) {
    |items'| == |items| && |node'| == |node| && forall i :: 0 <= i < |node| ==> node'[i].key == node[i].key
  }

  lemma LowerFree(hash: Hash, items: seq<Value>, node: seq<Node>, dummy: bool, last: int, lastfree: int, n: int,
      rank: seq<nat>, top: nat)
    requires TableOk(hash, items, node, dummy, last, rank, top, -1) && lastfree <= last
      && (!dummy ==> FreeBelow(node, lastfree, n))
    ensures TableOk(hash, items, node, dummy, lastfree, rank, top, n)
  {
  }

  lemma NoRoom(node: seq<Node>, dummy: bool)
    requires UniqueKeys(node) && (dummy || Absent(node, Nil))
    ensures !Room(node, dummy)
  {
    FullNode(node);
  }

  lemma NotLive(items: seq<Value>, node: seq<Node>, key: Value)
    requires HashKey(items, key) && Absent(node, key)
    ensures key !in Live(items, node)
  {
  }

  /** The live keys are those that have a value. */
  lemma LiveIff(hash: Hash, items: seq<Value>, node: seq<Node>, dummy: bool, lastfree: int, rank: seq<nat>, top: nat)
    requires TableOk(hash, items, node, dummy, lastfree, rank, top, -1)
    ensures forall k :: k in Live(items, node) <==> k != Nil && Raw(items, node, k) != Nil
  {
    TableFacts(hash, items, node, dummy, lastfree, rank, top, -1);
    forall k
      ensures k in Live(items, node) <==> k != Nil && Raw(items, node, k) != Nil
    {
      if InArray(items, k) {
        assert k == Int(k.n);
      }
      forall i | 0 <= i < |node| && node[i].key != Nil && node[i].key == k
        ensures HashKey(items, k) && RawNode(node, k) == node[i].val
      {
        KeyAt(node, i);
      }
    }
  }

  lemma SameTwice(items: seq<Value>, node: seq<Node>, items1: seq<Value>, node1: seq<Node>, items2: seq<Value>,
      node2: seq<Node>)
    requires SameTable(items, node, items1, node1) || (items == items1 && node == node1)
    requires SameTable(items1, node1, items2, node2) || (items1 == items2 && node1 == node2)
    ensures SameTable(items, node, items2, node2)
  {
  }

  // ----- resize -----

  ghost predicate AllFree(node: seq<Node>) {
    forall i :: 0 <= i < |node| ==> node[i] == Node(Nil, Nil, -1)
  }

  lemma FreshTable(hash: Hash, items: seq<Value>, node: seq<Node>, dummy: bool, lastfree: int, rank: seq<nat>, top: nat)
    requires |node| > 0 && AllFree(node) && |rank| == |node| && forall i :: 0 <= i < |rank| ==> rank[i] <= top
    requires |items| <= MAXASIZE && if dummy then |node| == 1 && lastfree == 0 else lastfree == |node|
    ensures TableOk(hash, items, node, dummy, lastfree, rank, top, -1)
  {
    forall i | 0 <= i < |node|
      ensures LinkOk(node, rank, top, i)
    {
    }
  }

  /** The live keys that do not fit in an array part of this size. */
  ghost function Outside(items: seq<Value>, node: seq<Node>, size: nat): set<Value> {
    set k | k in Live(items, node) && !(k.Int? && 1 <= k.n <= size)
  }

  lemma RoomLeft(used: set<Value>, keys: set<Value>, key: Value)
    requires used <= keys && key in keys && key !in used
    ensures |used| < |keys|
  {
    assert keys == used + (keys - used);
    assert key in keys - used;
  }

  lemma Restart(olditems: seq<Value>, nasize: nat, items: seq<Value>, node: seq<Node>)
    requires AllFree(node)
    requires items == if nasize < |olditems| then olditems[..nasize] else olditems + seq(nasize - |olditems|, _ => Nil)
    ensures SameTable(if nasize < |olditems| then olditems[..nasize] else olditems, [], items, node)
    ensures KeysOf(node) == {}
  {
    assert forall k :: k != Nil ==> RawNode(node, k) == Nil;
    var was := if nasize < |olditems| then olditems[..nasize] else olditems;
    forall k | k != Nil
      ensures Raw(items, node, k) == Raw(was, [], k)
    {
    }
  }

  /** What does not fit in the array part is among `keys`. */
  ghost predicate ItemsFit(items: seq<Value>, size: nat, keys: set<Value>) {
    true <==> (forall i :: size <= i < |items| && items[i] != Nil ==> Int(i + 1) in keys)
  }

  ghost predicate NodesFit(items: seq<Value>, node: seq<Node>, size: nat, keys: set<Value>) {
    true <==> (
      && UniqueKeys(node)
      && (forall i :: 0 <= i < |node| && node[i].key != Nil ==> HashKey(items, node[i].key))
      && (forall i :: 0 <= i < |node| && node[i].key == Nil ==> node[i].val == Nil)
      && (forall i :: 0 <= i < |node| && node[i].val != Nil ==>
        node[i].key in keys || (node[i].key.Int? && 1 <= node[i].key.n <= size))
    )
  }

  lemma OutsideFits(hash: Hash, items: seq<Value>, node: seq<Node>, dummy: bool, lastfree: int, rank: seq<nat>,
      top: nat, size: nat)
    requires TableOk(hash, items, node, dummy, lastfree, rank, top, -1)
    ensures |items| <= MAXASIZE
    ensures ItemsFit(items, size, Outside(items, node, size)) && NodesFit(items, node, size, Outside(items, node, size))
  {
    TableFacts(hash, items, node, dummy, lastfree, rank, top, -1);
    forall i | size <= i < |items| && items[i] != Nil
      ensures Int(i + 1) in Outside(items, node, size)
    {
      assert items[(i + 1) - 1] != Nil;
    }
  }

  lemma ShrinkTable(hash: Hash, items: seq<Value>, size: nat, node: seq<Node>, dummy: bool, lastfree: int,
      rank: seq<nat>, top: nat)
    requires size <= |items| && TableOk(hash, items, node, dummy, lastfree, rank, top, -1)
    ensures TableOk(hash, items[..size], node, dummy, lastfree, rank, top, -1)
  {
  }

  lemma ItemBack(olditems: seq<Value>, i: nat, items: seq<Value>, node: seq<Node>, items': seq<Value>, node': seq<Node>)
    requires i < |olditems| && SameTable(olditems[..i], [], items, node)
    requires if olditems[i] != Nil then Updated(items, node, items', node', Int(i + 1), olditems[i])
      else items' == items && node' == node
    ensures SameTable(olditems[..i + 1], [], items', node')
  {
    forall k | k != Nil
      ensures Raw(items', node', k) == Raw(olditems[..i + 1], [], k)
    {
      assert Raw(items, node, k) == Raw(olditems[..i], [], k);
    }
  }

  lemma NodeBack(olditems: seq<Value>, nold: seq<Node>, i: nat, items: seq<Value>, node: seq<Node>, items': seq<Value>,
      node': seq<Node>)
    requires i < |nold| && UniqueKeys(nold) && (nold[i].key != Nil ==> !InArray(olditems, nold[i].key))
    requires SameTable(olditems, nold[i + 1..], items, node)
    requires nold[i].key == Nil ==> nold[i].val == Nil
    requires if nold[i].val != Nil then Updated(items, node, items', node', nold[i].key, nold[i].val)
      else items' == items && node' == node
    ensures SameTable(olditems, nold[i..], items', node')
  {
    forall k | k != Nil
      ensures RawNode(nold[i..], k) == if k == nold[i].key then nold[i].val else RawNode(nold[i + 1..], k)
      ensures k == nold[i].key ==> RawNode(nold[i + 1..], k) == Nil
    {
      assert nold[i..] == [nold[i]] + nold[i + 1..];
      IndexOfCons(nold[i], nold[i + 1..], k);
      if k == nold[i].key {
        NoKey(nold[i + 1..], k);
      }
    }
    forall k | k != Nil
      ensures Raw(items', node', k) == Raw(olditems, nold[i..], k)
    {
      assert Raw(items, node, k) == Raw(olditems, nold[i + 1..], k);
    }
  }

  lemma IndexOfCons(n: Node, rest: seq<Node>, k: Value)
    ensures IndexOf([n] + rest, k) == if n.key == k then 0 else if IndexOf(rest, k)
      == -1 then -1 else IndexOf(rest, k) + 1
    decreases |rest|
  {
    var all := [n] + rest;
    if rest == [] {
      assert all[..|all| - 1] == [];
    } else {
      assert all[..|all| - 1] == [n] + rest[..|rest| - 1];
      IndexOfCons(n, rest[..|rest| - 1], k);
    }
  }

  lemma NoneOutside(items: seq<Value>, node: seq<Node>, size: nat)
    requires |items| <= size && UniqueKeys(node)
    ensures |Outside(items, node, size)| <= |node|
    ensures |node| == 1 && node[0].key == Nil ==> Outside(items, node, size) == {}
  {
    var s := Prefix(node, |node|);
    assert Outside(items, node, size) <= s;
    PrefixBound(node, |node|);
    assert s == Outside(items, node, size) + (s - Outside(items, node, size));
  }

  lemma {:induction false} PrefixBound(node: seq<Node>, n: nat)
    requires n <= |node|
    ensures |Prefix(node, n)| <= n
  {
    if n == 0 {
      assert Prefix(node, 0) == {};
    } else {
      PrefixBound(node, n - 1);
      assert Prefix(node, n) == Prefix(node, n - 1) + {node[n - 1].key};
    }
  }
}
