/** The hash part of ltable.c as a value: chained scatter with Brent's
    variation. */
module TableNodes {

  /** A number that is a C integer, the value that is no number, or any other
      value; keys are compared by raw equality. */
  datatype Value = Nil | Int(n: int) | NaN | Other(id: int)

  /** `next` is the position of the next node of the chain, or -1. */
  datatype Node = Node(key: Value, val: Value, next: int)

  type Hash = (Value, nat) -> nat

  function MainPosition(hash: Hash, size: nat, key: Value): (p: nat)
    requires size > 0
    ensures p < size
  {
    hash(key, size) % size
  }

  /** Links lead to higher ranks, so chains end. */
  ghost predicate Ordered(node: seq<Node>, rank: seq<nat>, top: nat) {
    |rank| == |node| && forall i :: 0 <= i < |node| ==> LinkOk(node, rank, top, i)
  }

  ghost predicate LinkOk(node: seq<Node>, rank: seq<nat>, top: nat, i: nat)
    requires i < |node| == |rank|
  {
    rank[i] <= top && (node[i].next == -1 || (0 <= node[i].next < |node| && rank[i] < rank[node[i].next]))
  }

  /** `j` is on the chain that starts at `i`. */
  ghost predicate On(node: seq<Node>, rank: seq<nat>, top: nat, i: nat, j: nat)
    requires Ordered(node, rank, top) && i < |node|
    decreases top - rank[i]
  {
    assert LinkOk(node, rank, top, i);
    i == j || (node[i].next != -1 && assert LinkOk(node, rank, top, node[i].next); On(node, rank, top, node[i].next, j))
  }

  predicate Keyed(node: seq<Node>, i: nat)
    requires i < |node|
  {
    node[i].key != Nil
  }

  /** A key is found from its main position, which holds a key that belongs there. */
  ghost predicate Homed(hash: Hash, node: seq<Node>, rank: seq<nat>, top: nat, i: nat)
    requires Ordered(node, rank, top) && i < |node|
  {
    var mp := MainPosition(hash, |node|, node[i].key);
    On(node, rank, top, mp, i) && Keyed(node, mp) && MainPosition(hash, |node|, node[mp].key) == mp
  }

  ghost predicate Linked(node: seq<Node>) {
    && (forall i, j :: 0 <= i < j < |node| && node[i].next != -1 ==> node[i].next != node[j].next)
    && (forall i, j :: 0 <= i < |node| && 0 <= j < |node| && node[i].key == Nil ==> node[j].next != i)
    && (forall i :: 0 <= i < |node| && node[i].key == Nil ==> node[i].next == -1 && node[i].val == Nil)
  }

  ghost predicate UniqueKeys(node: seq<Node>) {
    forall i, j :: 0 <= i < j < |node| && node[i].key != Nil ==> node[i].key != node[j].key
  }

  /** The invariant of the hash part. Each node has at most one predecessor, and
      no link leads to a node that was never used. */
  ghost predicate NodesOk(hash: Hash, node: seq<Node>, rank: seq<nat>, top: nat) {
    true <==> (
      && |node| > 0 && Ordered(node, rank, top) && Linked(node) && UniqueKeys(node)
      && (forall i :: 0 <= i < |node| && Keyed(node, i) ==> Homed(hash, node, rank, top, i))
    )
  }

  // ----- chains -----

  lemma {:induction false} OnSame(node: seq<Node>, node': seq<Node>, rank: seq<nat>, top: nat, rank': seq<nat>,
      top': nat, i: nat, j: nat)
    requires Ordered(node, rank, top) && Ordered(node', rank', top') && i < |node| == |node'|
    requires forall k :: 0 <= k < |node| ==> node'[k].next == node[k].next
    ensures On(node', rank', top', i, j) == On(node, rank, top, i, j)
    decreases top - rank[i]
  {
    assert LinkOk(node, rank, top, i);
    if node[i].next != -1 {
      assert LinkOk(node, rank, top, node[i].next);
      OnSame(node, node', rank, top, rank', top', node[i].next, j);
    }
  }

  lemma {:induction false} OnRank(node: seq<Node>, rank: seq<nat>, top: nat, i: nat, j: nat)
    requires Ordered(node, rank, top) && i < |node| && On(node, rank, top, i, j)
    ensures j < |node| && (i != j ==> rank[i] < rank[j])
    decreases top - rank[i]
  {
    assert LinkOk(node, rank, top, i);
    if i != j {
      assert LinkOk(node, rank, top, node[i].next);
      OnRank(node, rank, top, node[i].next, j);
    }
  }

  /** Before the end of a chain there is a predecessor. */
  lemma OnNext(node: seq<Node>, rank: seq<nat>, top: nat, i: nat, j: nat)
    requires Ordered(node, rank, top) && i < |node| && On(node, rank, top, i, j) && i != j
    ensures 0 <= node[i].next < |node| && rank[i] < rank[node[i].next] <= top && On(node, rank, top, node[i].next, j)
  {
    assert LinkOk(node, rank, top, i);
    assert LinkOk(node, rank, top, node[i].next);
  }

  // ----- a key in its own main position -----

  /** The main position is free, or its key was deleted: links stay as they are. */
  function Placed(node: seq<Node>, mp: nat, key: Value): seq<Node>
    requires mp < |node|
  {
    node[mp := node[mp].(key := key, val := Nil)]
  }

  lemma PlacedOk(hash: Hash, node: seq<Node>, rank: seq<nat>, top: nat, key: Value)
    requires NodesOk(hash, node, rank, top) && key != Nil
    requires forall i :: 0 <= i < |node| ==> node[i].key != key
    requires node[MainPosition(hash, |node|, key)].val == Nil
    ensures NodesOk(hash, Placed(node, MainPosition(hash, |node|, key), key), rank, top)
  {
    var mp := MainPosition(hash, |node|, key);
    var node' := Placed(node, mp, key);
    forall i | 0 <= i < |node'|
      ensures LinkOk(node', rank, top, i)
    {
      assert LinkOk(node, rank, top, i);
    }
    forall i | 0 <= i < |node'| && Keyed(node', i)
      ensures Homed(hash, node', rank, top, i)
    {
      var home := MainPosition(hash, |node|, node'[i].key);
      OnSame(node, node', rank, top, rank, top, home, i);
      if i != mp {
        assert Homed(hash, node, rank, top, i);
      }
    }
  }

  // ----- the colliding node is in its own main position -----

  /** The new node `n` goes right after `mp` on its chain. */
  function Chained(node: seq<Node>, mp: nat, n: nat, key: Value): seq<Node>
    requires mp < |node| && n < |node|
  {
    node[n := Node(key, Nil, node[mp].next)][mp := node[mp].(next := n)]
  }

  ghost function Doubled(rank: seq<nat>, mp: nat, n: nat): (r: seq<nat>)
    requires mp < |rank| && n < |rank|
    ensures |r| == |rank|
  {
    seq(|rank|, i requires 0 <= i < |rank| => if i == n then 2 * rank[mp] + 1 else 2 * rank[i])
  }

  lemma ChainedOrdered(node: seq<Node>, rank: seq<nat>, top: nat, mp: nat, n: nat, key: Value)
    requires Ordered(node, rank, top) && Linked(node) && mp < |node| && n < |node| && n != mp && node[n].key == Nil
    ensures Ordered(Chained(node, mp, n, key), Doubled(rank, mp, n), 2 * top + 1)
  {
    var node', rank', top' := Chained(node, mp, n, key), Doubled(rank, mp, n), 2 * top + 1;
    forall i | 0 <= i < |node'|
      ensures LinkOk(node', rank', top', i)
    {
      assert LinkOk(node, rank, top, i) && LinkOk(node, rank, top, mp);
    }
  }

  lemma {:induction false} ChainedOn(node: seq<Node>, rank: seq<nat>, top: nat, mp: nat, n: nat, key: Value, i: nat,
      j: nat)
    requires Ordered(node, rank, top) && Linked(node) && mp < |node| && n < |node| && n != mp && node[n].key == Nil
    requires i < |node| && i != n && On(node, rank, top, i, j)
    ensures Ordered(Chained(node, mp, n, key), Doubled(rank, mp, n), 2 * top + 1)
    ensures On(Chained(node, mp, n, key), Doubled(rank, mp, n), 2 * top + 1, i, j)
    decreases top - rank[i]
  {
    ChainedOrdered(node, rank, top, mp, n, key);
    assert LinkOk(node, rank, top, i);
    if i != j {
      OnNext(node, rank, top, i, j);
      ChainedOn(node, rank, top, mp, n, key, node[i].next, j);
      var node', rank' := Chained(node, mp, n, key), Doubled(rank, mp, n);
      assert LinkOk(node', rank', 2 * top + 1, i) && LinkOk(node', rank', 2 * top + 1, n);
    }
  }

  lemma ChainedHomed(hash: Hash, node: seq<Node>, rank: seq<nat>, top: nat, mp: nat, n: nat, key: Value, i: nat)
    requires NodesOk(hash, node, rank, top) && key != Nil && n < |node| && node[n].key == Nil && i < |node| && i != n
    requires mp < |node| && Keyed(node, mp) && Keyed(node, i) && Ordered(node, rank, top)
    ensures Ordered(Chained(node, mp, n, key), Doubled(rank, mp, n), 2 * top + 1)
    ensures Homed(hash, Chained(node, mp, n, key), Doubled(rank, mp, n), 2 * top + 1, i)
  {
    ChainedOrdered(node, rank, top, mp, n, key);
    assert Homed(hash, node, rank, top, i);
    ChainedOn(node, rank, top, mp, n, key, MainPosition(hash, |node|, node[i].key), i);
  }

  lemma ChainedOk(hash: Hash, node: seq<Node>, rank: seq<nat>, top: nat, n: nat, key: Value)
    requires NodesOk(hash, node, rank, top) && key != Nil && n < |node| && node[n].key == Nil
    requires forall i :: 0 <= i < |node| ==> node[i].key != key
    requires var mp := MainPosition(hash, |node|, key);
      Keyed(node, mp) && MainPosition(hash, |node|, node[mp].key) == mp
    ensures var mp := MainPosition(hash, |node|, key);
      NodesOk(hash, Chained(node, mp, n, key), Doubled(rank, mp, n), 2 * top + 1)
  {
    var mp := MainPosition(hash, |node|, key);
    var node', rank', top' := Chained(node, mp, n, key), Doubled(rank, mp, n), 2 * top + 1;
    ChainedOrdered(node, rank, top, mp, n, key);
    forall i | 0 <= i < |node'| && Keyed(node', i)
      ensures Homed(hash, node', rank', top', i)
    {
      if i == n {
        assert LinkOk(node', rank', top', mp) && LinkOk(node', rank', top', n);
        assert On(node', rank', top', n, n);
        assert On(node', rank', top', mp, n);
      } else {
        ChainedHomed(hash, node, rank, top, mp, n, key, i);
      }
    }
  }

  // ----- the colliding node is out of its main position -----

  /** It moves to `n`, where its predecessor `q` now leads; the new key takes
      its place. */
  function Moved(node: seq<Node>, mp: nat, n: nat, q: nat, key: Value): seq<Node>
    requires mp < |node| && n < |node| && q < |node|
  {
    node[q := node[q].(next := n)][n := node[mp]][mp := Node(key, Nil, -1)]
  }

  lemma MovedOrdered(node: seq<Node>, rank: seq<nat>, top: nat, mp: nat, n: nat, q: nat, key: Value)
    requires Ordered(node, rank, top) && Linked(node) && mp < |node| && n < |node| && q < |node| && n != mp
      && node[n].key == Nil
    requires node[q].next == mp
    ensures Ordered(Moved(node, mp, n, q, key), rank[n := rank[mp]], top)
  {
    var node', rank' := Moved(node, mp, n, q, key), rank[n := rank[mp]];
    assert LinkOk(node, rank, top, q);
    forall i | 0 <= i < |node'|
      ensures LinkOk(node', rank', top, i)
    {
      assert LinkOk(node, rank, top, i) && LinkOk(node, rank, top, mp);
    }
  }

  /** What was on a chain still is, the moved node in its new position. */
  lemma {:induction false} MovedOn(node: seq<Node>, rank: seq<nat>, top: nat, mp: nat, n: nat, q: nat, key: Value,
      i: nat, j: nat)
    requires Ordered(node, rank, top) && Linked(node) && mp < |node| && n < |node| && q < |node| && n != mp
      && node[n].key == Nil
    requires node[q].next == mp && i < |node| && i != n && On(node, rank, top, i, j)
    ensures Ordered(Moved(node, mp, n, q, key), rank[n := rank[mp]], top)
    ensures On(Moved(node, mp, n, q, key), rank[n := rank[mp]], top, if i == mp then n else i, if j == mp then n else j)
    decreases top - rank[i]
  {
    MovedOrdered(node, rank, top, mp, n, q, key);
    var node', rank' := Moved(node, mp, n, q, key), rank[n := rank[mp]];
    assert LinkOk(node, rank, top, i) && LinkOk(node, rank, top, q);
    assert LinkOk(node', rank', top, if i == mp then n else i);
    if i != j {
      OnNext(node, rank, top, i, j);
      OnRank(node, rank, top, i, j);
      MovedOn(node, rank, top, mp, n, q, key, node[i].next, j);
      assert LinkOk(node', rank', top, if node[i].next == mp then n else node[i].next);
      assert i != q ==> node[i].next != mp;
    }
  }

  lemma MovedOk(hash: Hash, node: seq<Node>, rank: seq<nat>, top: nat, n: nat, q: nat, key: Value)
    requires NodesOk(hash, node, rank, top) && key != Nil && n < |node| && node[n].key == Nil && q < |node|
    requires forall i :: 0 <= i < |node| ==> node[i].key != key
    requires var mp := MainPosition(hash, |node|, key);
      Keyed(node, mp) && MainPosition(hash, |node|, node[mp].key) != mp && node[q].next == mp
    ensures var mp := MainPosition(hash, |node|, key);
      NodesOk(hash, Moved(node, mp, n, q, key), rank[n := rank[mp]], top)
  {
    var mp := MainPosition(hash, |node|, key);
    var node', rank' := Moved(node, mp, n, q, key), rank[n := rank[mp]];
    MovedOrdered(node, rank, top, mp, n, q, key);
    assert LinkOk(node, rank, top, q);
    forall i | 0 <= i < |node'| && Keyed(node', i)
      ensures Homed(hash, node', rank', top, i)
    {
      if i == mp {
        assert On(node', rank', top, mp, mp);
      } else {
        var was := if i == n then mp else i;
        assert Homed(hash, node, rank, top, was);
        var home := MainPosition(hash, |node|, node[was].key);
        assert home != n;
        assert home != mp;
        MovedOn(node, rank, top, mp, n, q, key, home, was);
      }
    }
    MovedLinked(node, rank, top, mp, n, q, key);
  }

  lemma MovedLinked(node: seq<Node>, rank: seq<nat>, top: nat, mp: nat, n: nat, q: nat, key: Value)
    requires Ordered(node, rank, top) && Linked(node) && UniqueKeys(node)
    requires mp < |node| && n < |node| && q < |node| && n != mp && node[n].key == Nil && node[mp].key != Nil
    requires node[q].next == mp && key != Nil && forall i :: 0 <= i < |node| ==> node[i].key != key
    ensures Linked(Moved(node, mp, n, q, key)) && UniqueKeys(Moved(node, mp, n, q, key))
  {
    assert LinkOk(node, rank, top, q);
  }
}
