/** The keys that rehash counts. */
module TableCounts {
  import opened Wrappers
  import opened TableNodes
  import opened TableSizes
  import opened TableMaps

  /** The keys among these that may live in an array part. */
  ghost function Small(keys: set<Value>): set<int> {
    set k | k in keys && k.Int? && 1 <= k.n <= MAXASIZE :: k.n
  }

  predicate InUse(items: seq<Value>, i: int) {
    1 <= i <= |items| && items[i - 1] != Nil
  }

  ghost function Between(items: seq<Value>, a: int, b: int): set<int> {
    set i | a <= i < b && InUse(items, i)
  }

  /** The keys from 1 to n with a value in the array part. */
  ghost function Used(items: seq<Value>, n: int): set<int> {
    Between(items, 1, n + 1)
  }

  ghost function LiveNodes(node: seq<Node>, i: nat): set<Value> {
    set j | i <= j < |node| && node[j].key != Nil && node[j].val != Nil :: node[j].key
  }

  ghost function Ints(s: set<int>): set<Value> {
    set i | i in s :: Int(i)
  }

  lemma SmallBound(keys: set<Value>)
    ensures forall k :: k in Small(keys) ==> 1 <= k <= Pow2(MAXBITS)
  {
    MaxSize();
  }

  lemma SizeBelow(a: set<Value>, b: set<Value>)
    requires a <= b
    ensures |a| <= |b|
  {
    assert b == a + (b - a);
  }

  lemma SmallOne(key: Value)
    ensures Small({key}) == if key.Int? && 0 < key.n <= MAXASIZE then {key.n} else {}
  {
  }

  lemma SmallUnion(a: set<Value>, b: set<Value>)
    ensures Small(a + b) == Small(a) + Small(b)
  {
  }

  lemma {:induction false} IntsSize(s: set<int>, n: nat)
    ensures |Ints(UpTo(s, n))| == |UpTo(s, n)|
  {
    if n == 0 {
      assert UpTo(s, 0) == {} && Ints({}) == {};
    } else {
      var below := UpTo(s, n - 1);
      IntsSize(s, n - 1);
      if n in s {
        assert UpTo(s, n) == below + {n};
        assert Ints(UpTo(s, n)) == Ints(below) + {Int(n)};
        assert Int(n) !in Ints(below);
      } else {
        assert UpTo(s, n) == below;
      }
    }
  }

  lemma BetweenNext(items: seq<Value>, a: nat, i: nat)
    requires 1 <= a <= i <= |items|
    ensures |Between(items, a, i + 1)| == |Between(items, a, i)| + if items[i - 1] != Nil then 1 else 0
  {
    if items[i - 1] != Nil {
      assert Between(items, a, i + 1) == Between(items, a, i) + {i};
    } else {
      assert Between(items, a, i + 1) == Between(items, a, i);
    }
  }

  lemma SliceStart(items: seq<Value>, start: nat, lg: nat)
    requires start - 1 <= if lg == 0 then 0 else Pow2(lg - 1)
    ensures |Between(items, start, start)| == 0 && start - 1 <= Pow2(lg) && Pow2(lg + 1) == 2 * Pow2(lg)
  {
    assert Between(items, start, start) == {};
  }

  /** Counting the keys of one slice at once. */
  lemma SliceDone(nums: seq<nat>, items: seq<Value>, start: nat, i: nat, lg: nat)
    requires Counts(nums, Used(items, start - 1)) && lg <= MAXBITS && 1 <= start <= i <= |items| + 1
    requires start - 1 == if lg == 0 then 0 else Pow2(lg - 1)
    requires i - 1 <= Pow2(lg)
    ensures Counts(nums[lg := nums[lg] + |Between(items, start, i)|], Used(items, i - 1))
    ensures |Used(items, i - 1)| == |Used(items, start - 1)| + |Between(items, start, i)|
  {
    var was, more, now := Used(items, start - 1), Between(items, start, i), Used(items, i - 1);
    assert now == was + more && was !! more;
    forall j | 0 <= j <= MAXBITS
      ensures |Slice(now, j)| == |Slice(was, j)| + if j == lg then |more| else 0
    {
      if j == lg {
        assert Slice(now, j) == Slice(was, j) + more;
      } else {
        forall k | k in more
          ensures !InSlice(k, j)
        {
          if InSlice(k, j) {
            OneSlice(k, j, lg);
          }
        }
        assert Slice(now, j) == Slice(was, j);
      }
    }
  }

  /** `s` and the keys counted so far. */
  ghost function Seen(node: seq<Node>, i: nat, s: set<int>): set<int> {
    s + Small(LiveNodes(node, i))
  }

  lemma SeenAll(node: seq<Node>, s: set<int>)
    ensures Seen(node, 0, s) == s + Small(LiveNodes(node, 0))
  {
  }

  lemma LiveNodesStart(hash: Hash, items: seq<Value>, node: seq<Node>, dummy: bool, lastfree: int, rank: seq<nat>,
      top: nat, s: set<int>)
    requires TableOk(hash, items, node, dummy, lastfree, rank, top, -1)
    ensures LiveNodes(node, |node|) == {} && Small({}) == {} && Seen(node, |node|, s) == s
    ensures UniqueKeys(node) && forall i :: 0 <= i < |node| && node[i].key == Nil ==> node[i].val == Nil
  {
    assert Small({}) == {} && LiveNodes(node, |node|) == {};
  }

  lemma LiveNodesNext(node: seq<Node>, i: nat)
    requires i < |node| && UniqueKeys(node) && (node[i].key == Nil ==> node[i].val == Nil)
    ensures node[i].val == Nil ==> LiveNodes(node, i) == LiveNodes(node, i + 1)
    ensures node[i].val != Nil ==> |LiveNodes(node, i)| == |LiveNodes(node, i + 1)| + 1
    ensures node[i].val != Nil ==>
      |Small(LiveNodes(node, i))| == |Small(LiveNodes(node, i + 1))| + |Small({node[i].key})|
  {
    LiveNodesAdd(node, i);
    if node[i].val != Nil {
      hide LiveNodes, Small, UniqueKeys;
      AddOne(LiveNodes(node, i + 1), node[i].key);
    }
  }

  lemma SeenNext(node: seq<Node>, i: nat, s: set<int>)
    requires i < |node| && UniqueKeys(node) && (node[i].key == Nil ==> node[i].val == Nil)
    requires s !! Small(LiveNodes(node, 0))
    ensures node[i].val == Nil ==> Seen(node, i, s) == Seen(node, i + 1, s)
    ensures node[i].val != Nil ==> Seen(node, i, s) == Seen(node, i + 1, s) + Small({node[i].key})
    ensures node[i].val != Nil ==> Small({node[i].key}) !! Seen(node, i + 1, s)
  {
    LiveNodesAdd(node, i);
    if node[i].val != Nil {
      hide LiveNodes, Small, UniqueKeys;
      AddOne(LiveNodes(node, i + 1), node[i].key);
      SmallPart({node[i].key}, LiveNodes(node, 0));
    } else {
      assert LiveNodes(node, i) == LiveNodes(node, i + 1);
    }
  }

  lemma LiveNodesAdd(node: seq<Node>, i: nat)
    requires i < |node| && UniqueKeys(node) && (node[i].key == Nil ==> node[i].val == Nil)
    ensures LiveNodes(node, i) == LiveNodes(node, i + 1) + if node[i].val == Nil then {} else {node[i].key}
    ensures node[i].val != Nil ==> node[i].key in LiveNodes(node, 0) && node[i].key !in LiveNodes(node, i + 1)
  {
  }

  lemma AddOne(rest: set<Value>, k: Value)
    requires k !in rest
    ensures Small(rest + {k}) == Small(rest) + Small({k}) && Small(rest) !! Small({k})
    ensures |Small(rest + {k})| == |Small(rest)| + |Small({k})|
  {
    SmallUnion(rest, {k});
  }

  lemma SmallPart(a: set<Value>, b: set<Value>)
    requires a <= b
    ensures Small(a) <= Small(b)
  {
  }

  // ----- the counts together -----

  lemma LiveParts(items: seq<Value>, node: seq<Node>)
    requires forall i :: 0 <= i < |node| && node[i].key != Nil ==> HashKey(items, node[i].key)
    ensures Live(items, node) == Ints(Used(items, |items|)) + LiveNodes(node, 0)
    ensures Ints(Used(items, |items|)) !! LiveNodes(node, 0)
  {
    forall k
      ensures k in Live(items, node) <==> k in Ints(Used(items, |items|)) + LiveNodes(node, 0)
    {
      if k in Ints(Used(items, |items|)) {
        assert InUse(items, k.n);
      }
    }
  }

  lemma SmallInts(s: set<int>)
    requires forall i :: i in s ==> 1 <= i <= MAXASIZE
    ensures Small(Ints(s)) == s
  {
    forall i | i in s
      ensures i in Small(Ints(s))
    {
      assert Int(i) in Ints(s);
    }
  }

  /** The array part, the nodes and the extra key are counted without overlap. */
  lemma CountsAgree(hash: Hash, items: seq<Value>, node: seq<Node>, dummy: bool, lastfree: int, rank: seq<nat>,
      top: nat, ek: Value)
    requires TableOk(hash, items, node, dummy, lastfree, rank, top, -1) && ek !in Live(items, node)
    ensures |items| <= MAXASIZE
    ensures Used(items, |items|) !! Small(LiveNodes(node, 0))
    ensures Small({ek}) !! Used(items, |items|) + Small(LiveNodes(node, 0))
    ensures Small(Live(items, node) + {ek}) == Used(items, |items|) + Small(LiveNodes(node, 0)) + Small({ek})
    ensures |Live(items, node)| == |Used(items, |items|)| + |LiveNodes(node, 0)|
    ensures |Small(Live(items, node) + {ek})| == |Used(items, |items|)| + |Small(LiveNodes(node, 0))| + |Small({ek})|
  {
    var used, nodes := Used(items, |items|), LiveNodes(node, 0);
    TableFacts(hash, items, node, dummy, lastfree, rank, top, -1);
    LiveParts(items, node);
    SmallInts(used);
    IntsSize(used, |items|);
    assert UpTo(used, |items|) == used;
    SmallUnion(Ints(used), nodes);
    AddOne(Live(items, node), ek);
    hide TableOk, NodesOk, Linked, UniqueKeys;
    forall k | k in used
      ensures k !in Small(nodes)
    {
      assert InUse(items, k) && InArray(items, Int(k));
    }
  }

  /** The table has as many keys as nodes can be had. */
  ghost predicate Overflow(st: Status, live: set<Value>) {
    st == Error("table overflow") && |live| >= 0x400_0000
  }

  predicate Within(key: Value, n: int) {
    key.Int? && 1 <= key.n <= n
  }

  /** The nodes asked for hold every key, the extra one too, that does not go to
      the array part. */
  lemma RehashEnough(items: seq<Value>, node: seq<Node>, ek: Value, n: nat)
    requires n <= MAXASIZE && ek !in Live(items, node)
    ensures |UpTo(Small(Live(items, node) + {ek}), n)| <= |Live(items, node)| + 1
    ensures |Outside(items, node, n)| + |UpTo(Small(Live(items, node) + {ek}), n)|
         == |Live(items, node)| + if Within(ek, n) then 1 else 0
  {
    var live, outer := Live(items, node), Outside(items, node, n);
    var all, extra := live + {ek}, if Within(ek, n) then {} else {ek};
    IntsSize(Small(all), n);
    InnerKeys(all, n);
    assert forall k :: k in outer <==> k in live && !Within(k, n);
    hide Live, Outside, Small, Ints, UpTo;
    Parts(live, ek, Ints(UpTo(Small(all), n)), outer, n);
  }

  lemma InnerKeys(all: set<Value>, n: nat)
    requires n <= MAXASIZE
    ensures forall k :: k in Ints(UpTo(Small(all), n)) <==> k in all && Within(k, n)
  {
    forall k | k in all && Within(k, n)
      ensures k in Ints(UpTo(Small(all), n))
    {
      assert k.n in Small(all) && k.n in UpTo(Small(all), n);
    }
  }

  lemma Parts(live: set<Value>, ek: Value, inner: set<Value>, outer: set<Value>, n: nat)
    requires ek !in live
    requires forall k :: k in inner <==> k in live + {ek} && Within(k, n)
    requires forall k :: k in outer <==> k in live && !Within(k, n)
    ensures |inner| <= |live| + 1 && |outer| + |inner| == |live| + if Within(ek, n) then 1 else 0
  {
    var all := live + {ek};
    if Within(ek, n) {
      assert all == inner + outer && inner !! outer;
    } else {
      assert live == inner + outer && inner !! outer;
    }
  }
}
