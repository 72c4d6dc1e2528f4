/** The tables of ltable.c: an array part and a hash part that together are a
    map. */
module TableHash {
  import opened Wrappers
  import opened TableNodes
  import opened TableSizes
  import opened TableMaps
  import opened TableCounts
  import opened TableWalk
  import opened Limits

  /** Where luaH_set tells its caller to store the value. */
  datatype Slot = InItems(i: nat) | InNode(i: nat)

  class Table {
    const hash: Hash
    var items: seq<Value>
    var node: seq<Node>
    var dummy: bool
    var lastfree: int
    ghost var rank: seq<nat>
    ghost var top: nat

    /** luaH_new. */
    constructor (hash: Hash, narray: nat, nhash: nat)
      requires narray <= 0x400_0000 && nhash <= 0x400_0000
      ensures Valid() && this.hash == hash && |items| == narray
      ensures forall k :: Raw(items, node, k) == Nil
    {
      this.hash := hash;
      items, node, dummy, lastfree := seq(narray, _ => Nil), [Node(Nil, Nil, -1)], true, 0;
      rank, top := [0], 0;
      new;
      var st := SetNodeVector(nhash);
      FreeHasNothing(items, node);
    }

    ghost predicate Valid()
      reads this
    {
      ValidExcept(-1)
    }

    /** The position `n` may be free above `lastfree`. */
    ghost predicate ValidExcept(n: int)
      reads this
    {
      TableOk(hash, items, node, dummy, lastfree, rank, top, n)
    }

    // ----- search -----

    /** The loop of the search functions, along one chain. */
    method FindNode(key: Value) returns (n: int)
      requires Valid() && key != Nil
      ensures n == -1 || 0 <= n < |node|
      ensures n >= 0 ==> node[n].key == key
      ensures n == -1 ==> Absent(node, key)
    {
      n := MainPosition(hash, |node|, key);
      AllOnChain(hash, node, rank, top, key);
      while node[n].key != key
        invariant 0 <= n < |node|
        invariant forall i :: 0 <= i < |node| && node[i].key == key ==> On(node, rank, top, n, i)
        decreases top - rank[n]
      {
        ChainOn(node, rank, top, n, key);
        n := node[n].next;
        if n == -1 {
          return;
        }
      }
    }

    /** luaH_get. */
    method Get(key: Value) returns (v: Value)
      requires Valid()
      ensures v == Raw(items, node, key)
    {
      if key == Nil {
        NilHasNoValue(node);
        return Nil;
      }
      if InArray(items, key) {
        return items[key.n - 1];
      }
      var n := FindNode(key);
      if n >= 0 {
        KeyAt(node, n);
        return node[n].val;
      }
      NoKey(node, key);
      return Nil;
    }

    /** getfreepos: the last free position below `lastfree`. */
    method GetFreePos() returns (n: int)
      requires Valid()
      modifies `lastfree
      ensures ValidExcept(n) && (n == -1 || (0 <= n < |node| && node[n].key == Nil && !dummy))
      ensures n == -1 ==> dummy || Absent(node, Nil)
    {
      TableFacts(hash, items, node, dummy, lastfree, rank, top, -1);
      ghost var last := lastfree;
      while lastfree > 0
        invariant lastfree <= last
        invariant !dummy ==> FreeBelow(node, lastfree, -1)
        decreases lastfree
      {
        lastfree := lastfree - 1;
        if node[lastfree].key == Nil {
          LowerFree(hash, items, node, dummy, last, lastfree, lastfree, rank, top);
          return lastfree;
        }
      }
      lastfree := lastfree - 1;
      LowerFree(hash, items, node, dummy, last, lastfree, -1, rank, top);
      return -1;
    }

    // ----- a new key -----

    ghost predicate Holds(slot: Slot, key: Value)
      reads `items, `node
    {
      match slot
      case InItems(i) => i < |items| && key == Int(i + 1)
      case InNode(i) => i < |node| && node[i].key == key
    }

    /** The predecessor of `mp` on the chain of the node that is there. */
    method FindPrevious(start: nat, mp: nat) returns (q: nat)
      requires Ordered(node, rank, top) && start < |node| && mp < |node| && start != mp
        && On(node, rank, top, start, mp)
      ensures q < |node| && node[q].next == mp
    {
      q := start;
      OnNext(node, rank, top, q, mp);
      while node[q].next != mp
        invariant q < |node| && q != mp && On(node, rank, top, q, mp)
        invariant 0 <= node[q].next < |node|
        decreases top - rank[q]
      {
        OnNext(node, rank, top, q, mp);
        q := node[q].next;
        OnNext(node, rank, top, q, mp);
      }
    }

    /** newkey where a node is found: no other key and no value changes. */
    method Place(key: Value, mp: nat, n: nat) returns (at: nat)
      requires ValidExcept(n) && key != Nil && HashKey(items, key) && !dummy && Absent(node, key)
      requires |node| > 0 && mp == MainPosition(hash, |node|, key) && node[mp].key != Nil
      requires n < |node| && node[n].key == Nil
      modifies `node, `rank, `top
      ensures Valid() && |node| == |old(node)| && at < |node| && node[at].key == key
      ensures SameValues(old(node), node) && KeysOf(node) <= KeysOf(old(node)) + {key}
    {
      hide TableOk, NodesOk, Linked, UniqueKeys, Ordered, On, SameValues, SameTable, KeysOf, Absent, Moved, Chained,
        Placed, Raw;
      TableFacts(hash, items, node, dummy, lastfree, rank, top, n);
      NodesFacts(hash, node, rank, top);
      var othern := MainPosition(hash, |node|, node[mp].key);
      if othern != mp {
        HomeAhead(hash, node, rank, top, mp);
        var q := FindPrevious(othern, mp);
        MovedTable(hash, items, node, lastfree, rank, top, mp, n, q, key);
        rank := rank[n := rank[mp]];
        node := Moved(node, mp, n, q, key);
        at := mp;
      } else {
        ChainedTable(hash, items, node, lastfree, rank, top, mp, n, key);
        rank, top := Doubled(rank, mp, n), 2 * top + 1;
        node := Chained(node, mp, n, key);
        at := n;
      }
    }

    /** newkey. When no node is free the table is rehashed, which makes room:
        it is never rehashed again for the same key. */
    method NewKey(key: Value, ghost roomy: bool) returns (st: Status, slot: Slot)
      requires Valid() && key != Nil && HashKey(items, key) && Absent(node, key)
      requires roomy ==> Room(node, dummy)
      modifies `items, `node, `dummy, `lastfree, `rank, `top
      ensures st.Okay? ==> Valid() && Holds(slot, key) && SameTable(old(items), old(node), items, node)
      ensures st.Error? ==> Overflow(st, old(Live(items, node)))
      ensures roomy ==> st.Okay? && items == old(items) && |node| == |old(node)| && !dummy
      ensures roomy ==> KeysOf(node) <= KeysOf(old(node)) + {key}
      decreases if roomy then 0 else 1, 0
    {
      TableFacts(hash, items, node, dummy, lastfree, rank, top, -1);
      hide TableOk, NodesOk, Linked, UniqueKeys, Ordered, On, SameValues, SameTable, KeysOf, Absent, Moved, Chained,
        Placed, Raw;
      var mp := MainPosition(hash, |node|, key);
      if node[mp].val != Nil || dummy {
        var n := GetFreePos();
        if n == -1 {
          NoRoom(node, dummy);
          st, slot := NewKeyAfterRehash(key);
          return;
        }
        var at := Place(key, mp, n);
        SameNodes(items, old(node), node);
        return Okay, InNode(at);
      }
      PlacedTable(hash, items, node, dummy, lastfree, rank, top, mp, key);
      node := Placed(node, mp, key);
      SameNodes(items, old(node), node);
      return Okay, InNode(mp);
    }

    /** The key goes into the grown table. */
    method NewKeyAfterRehash(key: Value) returns (st: Status, slot: Slot)
      requires Valid() && key != Nil && HashKey(items, key) && Absent(node, key)
      modifies `items, `node, `dummy, `lastfree, `rank, `top
      ensures st.Okay? ==> Valid() && Holds(slot, key) && SameTable(old(items), old(node), items, node)
      ensures st.Error? ==> Overflow(st, old(Live(items, node)))
      decreases 0, 7
    {
      hide TableOk, NodesOk, Linked, UniqueKeys, Ordered, On, SameValues, SameTable, KeysOf, Absent, Moved, Chained,
        Placed, Raw;
      slot := InItems(0);
      NotLive(items, node, key);
      st := Rehash(key);
      if st.Okay? {
        ghost var items1, node1 := items, node;
        st, slot := Set(key, true);
        SameTwice(old(items), old(node), items1, node1, items, node);
      }
    }

    /** luaH_set: the slot of a key, with the value it had. */
    method Set(key: Value, ghost roomy: bool) returns (st: Status, slot: Slot)
      requires Valid()
      requires roomy ==> key != Nil && key != NaN && (InArray(items, key) || key in KeysOf(node) || Room(node, dummy))
      modifies `items, `node, `dummy, `lastfree, `rank, `top
      ensures st.Okay? ==> Valid() && Holds(slot, key) && SameTable(old(items), old(node), items, node)
      ensures key == Nil ==> st == Error("table index is nil")
      ensures key == NaN ==> st == Error("table index is NaN")
      ensures st.Error? ==> key == Nil || key == NaN || Overflow(st, old(Live(items, node)))
      ensures roomy ==> st.Okay? && items == old(items) && |node| == |old(node)| && dummy == old(dummy)
      ensures roomy ==> KeysOf(node) <= KeysOf(old(node)) + (if InArray(items, key) then {} else {key})
      ensures key != Nil && old(InArray(items, key) || key in KeysOf(node)) ==>
        st.Okay? && items == old(items) && node == old(node)
      decreases if roomy then 0 else 1, 1
    {
      hide TableOk, NodesOk, Linked, UniqueKeys, Ordered, On, SameValues, SameTable, KeysOf, Absent, Moved, Chained,
        Placed, Raw;
      SameTwice(items, node, items, node, items, node);
      if key == Nil {
        return Error("table index is nil"), InItems(0);
      }
      if InArray(items, key) {
        return Okay, InItems(key.n - 1);
      }
      var n := FindNode(key);
      if n >= 0 {
        TableFacts(hash, items, node, dummy, lastfree, rank, top, -1);
        return Okay, InNode(n);
      }
      NotInKeys(node, key);
      if key == NaN {
        return Error("table index is NaN"), InItems(0);
      }
      st, slot := NewKey(key, roomy);
    }

    /** The assignment that follows luaH_set. */
    method Put(key: Value, val: Value, ghost roomy: bool) returns (st: Status)
      requires Valid()
      requires roomy ==> key != Nil && key != NaN && (InArray(items, key) || key in KeysOf(node) || Room(node, dummy))
      modifies `items, `node, `dummy, `lastfree, `rank, `top
      ensures st.Okay? ==> Valid() && Updated(old(items), old(node), items, node, key, val)
      ensures st.Okay? ==>
        forall k :: k != Nil ==> Raw(items, node, k) == if k == key then val else old(Raw(items, node, k))
      ensures key == Nil ==> st == Error("table index is nil")
      ensures key == NaN ==> st == Error("table index is NaN")
      ensures st.Error? ==> key == Nil || key == NaN || Overflow(st, old(Live(items, node)))
      ensures roomy ==> st.Okay? && |items| == |old(items)| && |node| == |old(node)| && dummy == old(dummy)
      ensures roomy ==> KeysOf(node) <= KeysOf(old(node)) + (if InArray(items, key) then {} else {key})
      ensures key != Nil && old(InArray(items, key) || key in KeysOf(node)) ==>
        st.Okay? && SamePlaces(old(items), old(node), items, node)
      decreases if roomy then 0 else 1, 2
    {
      hide TableOk, NodesOk, Linked, UniqueKeys, Ordered, On, SameValues, SameTable, KeysOf, Absent, Moved, Chained,
        Placed, Raw;
      var slot;
      st, slot := Set(key, roomy);
      if st.Okay? {
        ghost var items1, node1 := items, node;
        match slot {
          case InItems(i) =>
            ItemTable(hash, items, node, dummy, lastfree, rank, top, i, val);
            items := items[i := val];
          case InNode(i) =>
            StoredTable(hash, items, node, dummy, lastfree, rank, top, i, val);
            node := node[i := node[i].(val := val)];
        }
        UpdateAfter(old(items), old(node), items1, node1, items, node, key, val);
      }
    }

    // ----- resize -----

    /** setnodevector. */
    method SetNodeVector(size: nat) returns (st: Status)
      requires |items| <= MAXASIZE
      modifies `node, `dummy, `lastfree, `rank, `top
      ensures st.Okay? ==> Valid() && AllFree(node) && |node| >= size && dummy == (size == 0)
      ensures st.Error? <==> size > 0x400_0000
      ensures st.Error? ==> st == Error("table overflow")
    {
      hide TableOk, NodesOk, Pow2, InSlice;
      if size == 0 {
        node, dummy := [Node(Nil, Nil, -1)], true;
        lastfree := 0;
      } else {
        var lsize := CeilLog2(size);
        MaxSize();
        SliceLimit(size, lsize);
        if lsize > MAXBITS {
          return Error("table overflow");
        }
        node, dummy := seq(Pow2(lsize), _ => Node(Nil, Nil, -1)), false;
        lastfree := |node|;
      }
      rank, top := seq(|node|, _ => 0), 0;
      FreshTable(hash, items, node, dummy, lastfree, rank, top);
      return Okay;
    }

    /** Puts back what was taken from the table. The vector of nodes has room
        for all keys outside the array part. */
    method Reinsert(key: Value, val: Value, ghost keys: set<Value>)
      requires Valid() && key != Nil && key != NaN
      requires InArray(items, key) || key in keys
      requires KeysOf(node) <= keys && |keys| <= |node| && (dummy ==> keys == {})
      modifies `items, `node, `dummy, `lastfree, `rank, `top
      ensures Valid() && Updated(old(items), old(node), items, node, key, val)
      ensures |items| == |old(items)| && |node| == |old(node)| && dummy == old(dummy) && KeysOf(node) <= keys
      decreases 0, 3
    {
      if key !in KeysOf(node) && key in keys {
        RoomLeft(KeysOf(node), keys, key);
      }
      var st := Put(key, val, true);
    }

    /** The loop of resize over the vanishing slice of the array part. */
    method ReinsertItems(olditems: seq<Value>, ghost keys: set<Value>)
      requires Valid() && |items| <= |olditems| && SameTable(olditems[..|items|], [], items, node)
      requires ItemsFit(olditems, |items|, keys)
      requires KeysOf(node) <= keys && |keys| <= |node| && (dummy ==> keys == {})
      modifies `items, `node, `dummy, `lastfree, `rank, `top
      ensures Valid() && SameTable(olditems, [], items, node)
      ensures |items| == |old(items)| && |node| == |old(node)| && dummy == old(dummy) && KeysOf(node) <= keys
      decreases 0, 4
    {
      hide TableOk, Raw, SameTable, Updated, KeysOf;
      var nasize := |items|;
      for i := nasize to |olditems|
        invariant Valid() && |items| == nasize && |node| == |old(node)| && dummy == old(dummy)
        invariant KeysOf(node) <= keys && SameTable(olditems[..i], [], items, node)
      {
        ghost var items1, node1 := items, node;
        if olditems[i] != Nil {
          Reinsert(Int(i + 1), olditems[i], keys);
        }
        ItemBack(olditems, i, items1, node1, items, node);
      }
      assert olditems[..|olditems|] == olditems;
    }

    /** The loop of resize over the old nodes. */
    method ReinsertNodes(ghost olditems: seq<Value>, nold: seq<Node>, ghost keys: set<Value>)
      requires Valid() && SameTable(olditems, [], items, node) && UniqueKeys(nold)
      requires NodesFit(olditems, nold, |items|, keys)
      requires KeysOf(node) <= keys && |keys| <= |node| && (dummy ==> keys == {})
      modifies `items, `node, `dummy, `lastfree, `rank, `top
      ensures Valid() && SameTable(olditems, nold, items, node)
      ensures |items| == |old(items)| && |node| == |old(node)| && dummy == old(dummy) && KeysOf(node) <= keys
      decreases 0, 4
    {
      hide TableOk, Raw, SameTable, Updated, KeysOf, UniqueKeys;
      assert nold[|nold|..] == [];
      for i := |nold| downto 0
        invariant Valid() && |items| == |old(items)| && |node| == |old(node)| && dummy == old(dummy)
        invariant KeysOf(node) <= keys && SameTable(olditems, nold[i..], items, node)
      {
        ghost var items1, node1 := items, node;
        if nold[i].val != Nil {
          Reinsert(nold[i].key, nold[i].val, keys);
        }
        NodeBack(olditems, nold, i, items1, node1, items, node);
      }
      assert nold[0..] == nold;
    }

    /** resize: no key is lost, and no insertion needs another rehash. */
    method Resize(nasize: nat, nhsize: nat) returns (st: Status)
      requires Valid() && nasize <= MAXASIZE
      requires |Outside(items, node, nasize)| <= nhsize
      modifies `items, `node, `dummy, `lastfree, `rank, `top
      ensures st.Error? <==> nhsize > 0x400_0000
      ensures st.Error? ==> st == Error("table overflow")
      ensures st.Okay? ==> (
        && Valid() && SameTable(old(items), old(node), items, node)
        && |items| == nasize && |node| >= nhsize && dummy == (nhsize == 0)
        && KeysOf(node) <= old(Outside(items, node, nasize))
      )
      decreases 0, 5
    {
      hide TableOk, NodesOk, Linked, UniqueKeys, FreeBelow, Raw, SameTable, Updated, KeysOf, Live, Outside, Pow2,
        ItemsFit, NodesFit;
      OutsideFits(hash, items, node, dummy, lastfree, rank, top, nasize);
      var olditems, nold, oldasize := items, node, |items|;
      ghost var keys := Outside(items, node, nasize);
      if nasize > oldasize {
        items := items + seq(nasize - oldasize, _ => Nil);
      }
      st := SetNodeVector(nhsize);
      if st.Error? {
        return;
      }
      if nasize < oldasize {
        items := items[..nasize];
        Restart(olditems, nasize, items, node);
        ShrinkTable(hash, olditems, nasize, node, dummy, lastfree, rank, top);
        ReinsertItems(olditems, keys);
      } else {
        Restart(olditems, nasize, items, node);
      }
      ReinsertNodes(olditems, nold, keys);
    }

    /** luaH_resizearray. */
    method ResizeArray(nasize: nat) returns (st: Status)
      requires Valid() && |items| <= nasize <= 0x400_0000 && |node| <= 0x400_0000
      modifies `items, `node, `dummy, `lastfree, `rank, `top
      ensures st.Okay? && Valid() && SameTable(old(items), old(node), items, node) && |items| == nasize
    {
      NoneOutside(items, node, nasize);
      st := Resize(nasize, if dummy then 0 else |node|);
    }

    // ----- rehash -----

    /** countint. */
    method CountInt(key: Value, nums: array<nat>, ghost s: set<int>) returns (c: nat)
      requires nums.Length == MAXBITS + 1 && Counts(nums[..], s)
      requires Small({key}) !! s
      modifies nums
      ensures Counts(nums[..], s + Small({key})) && c == |Small({key})|
    {
      hide TableOk, NodesOk, Linked, UniqueKeys, Counts, Pow2, InSlice, Small, Between, LiveNodes;
      SmallOne(key);
      MaxSize();
      if key.Int? && 0 < key.n <= MAXASIZE {
        var lg := CeilLog2(key.n);
        SliceBelow(key.n, lg);
        CountOne(nums[..], s, key.n, lg);
        ghost var before := nums[..];
        nums[lg] := nums[lg] + 1;
        assert nums[..] == before[lg := before[lg] + 1];
        return 1;
      }
      assert s + {} == s;
      return 0;
    }

    /** numusearray. */
    method NumUseArray(nums: array<nat>) returns (ause: nat)
      requires |items| <= MAXASIZE && nums.Length == MAXBITS + 1 && Counts(nums[..], {})
      modifies nums
      ensures Counts(nums[..], Used(items, |items|)) && ause == |Used(items, |items|)|
    {
      assert Used(items, 0) == {} && Pow2(0) == 1;
      MaxSize();
      hide TableOk, NodesOk, Linked, UniqueKeys, Counts, Pow2, InSlice, Small, Between, LiveNodes;
      var ttlg, i := 1, 1;
      ause := 0;
      var lg := 0;
      while lg <= MAXBITS
        invariant 0 <= lg <= MAXBITS + 1 && ttlg == Pow2(lg) && 1 <= i <= |items| + 1
        invariant i - 1 == |items| || i - 1 == if lg == 0 then 0 else Pow2(lg - 1)
        invariant i - 1 <= if lg == 0 then 0 else Pow2(lg - 1)
        invariant Counts(nums[..], Used(items, i - 1)) && ause == |Used(items, i - 1)|
      {
        var lc, lim := 0, ttlg;
        if lim > |items| {
          lim := |items|;
          if i > lim {
            break;
          }
        }
        ghost var start, before := i, nums[..];
        SliceStart(items, start, lg);
        while i <= lim
          invariant start <= i <= lim + 1 && nums[..] == before
          invariant lc == |Between(items, start, i)|
        {
          BetweenNext(items, start, i);
          if items[i - 1] != Nil {
            lc := lc + 1;
          }
          i := i + 1;
        }
        SliceDone(before, items, start, i, lg);
        nums[lg] := nums[lg] + lc;
        assert nums[..] == before[lg := before[lg] + lc];
        ause := ause + lc;
        lg, ttlg := lg + 1, ttlg * 2;
      }
    }

    /** numusehash. */
    method NumUseHash(nums: array<nat>, ghost s: set<int>) returns (totaluse: nat, ause: nat)
      requires Valid() && nums.Length == MAXBITS + 1 && Counts(nums[..], s)
      requires s !! Small(LiveNodes(node, 0))
      modifies nums
      ensures Counts(nums[..], s + Small(LiveNodes(node, 0)))
      ensures ause == |Small(LiveNodes(node, 0))| && totaluse == |LiveNodes(node, 0)|
    {
      hide TableOk, NodesOk, Linked, UniqueKeys, Counts, Small, LiveNodes, Seen;
      LiveNodesStart(hash, items, node, dummy, lastfree, rank, top, s);
      var nodes, i := node, |node|;
      totaluse, ause := 0, 0;
      while i != 0
        invariant 0 <= i <= |nodes|
        invariant Counts(nums[..], Seen(nodes, i, s))
        invariant ause == |Small(LiveNodes(nodes, i))| && totaluse == |LiveNodes(nodes, i)|
      {
        i := i - 1;
        LiveNodesNext(nodes, i);
        SeenNext(nodes, i, s);
        if nodes[i].val != Nil {
          var c := CountInt(nodes[i].key, nums, Seen(nodes, i + 1, s));
          ause := ause + c;
          totaluse := totaluse + 1;
        }
      }
      SeenAll(nodes, s);
    }

    method ResetCounts() returns (nums: array<nat>)
      ensures fresh(nums) && nums.Length == MAXBITS + 1 && Counts(nums[..], {})
    {
      nums := new nat[MAXBITS + 1](_ => 0);
      CountNothing();
      assert nums[..] == seq(MAXBITS + 1, _ => 0);
    }

    /** Fresh counts of the array part. */
    method CountItems() returns (nums: array<nat>, ause: nat)
      requires |items| <= MAXASIZE
      ensures fresh(nums) && nums.Length == MAXBITS + 1
      ensures Counts(nums[..], Used(items, |items|)) && ause == |Used(items, |items|)|
    {
      hide *;
      nums := ResetCounts();
      ause := NumUseArray(nums);
    }

    /** The counting of rehash: the keys of the table and the extra one. */
    method CountKeys(ek: Value) returns (nums: array<nat>, nasize: nat, totaluse: nat)
      requires Valid() && ek !in Live(items, node)
      ensures Counts(nums[..], Small(Live(items, node) + {ek}))
      ensures nasize == |Small(Live(items, node) + {ek})| && totaluse == |Live(items, node)| + 1
    {
      CountsAgree(hash, items, node, dummy, lastfree, rank, top, ek);
      hide *;
      nums, nasize := CountItems();
      totaluse := nasize;
      var used, ause := NumUseHash(nums, Used(items, |items|));
      nasize, totaluse := nasize + ause, totaluse + used;
      var c := CountInt(ek, nums, Used(items, |items|) + Small(LiveNodes(node, 0)));
      nasize, totaluse := nasize + c, totaluse + 1;
    }

    /** rehash: the array part gets its best size, no key is lost, and there is
        room for the extra key. */
    method Rehash(ek: Value) returns (st: Status)
      requires Valid() && ek != Nil && ek !in Live(items, node)
      modifies `items, `node, `dummy, `lastfree, `rank, `top
      ensures st.Okay? ==> Valid() && SameTable(old(items), old(node), items, node)
      ensures st.Okay? ==> InArray(items, ek) || Room(node, dummy)
      ensures st.Okay? ==> BestSize(Small(old(Live(items, node)) + {ek}), |items|) && |items| <= 0x400_0000
      ensures st.Error? ==> Overflow(st, old(Live(items, node)))
      decreases 0, 6
    {
      hide TableOk, NodesOk, Counts, Small, Live, Outside, Raw, SameTable, KeysOf, BestSize, UpTo, Pow2;
      MaxSize();
      SmallBound(Live(items, node) + {ek});
      var nums, nasize, totaluse := CountKeys(ek);
      var n, na := ComputeSizes(nums[..], nasize, Small(Live(items, node) + {ek}));
      RehashEnough(items, node, ek, n);
      ghost var keys := Outside(items, node, n);
      st := Resize(n, totaluse - na);
      if st.Okay? && !InArray(items, ek) {
        SizeBelow(KeysOf(node), keys);
      }
    }

    // ----- traversal -----

    /** findindex. */
    method FindIndex(key: Value) returns (st: Status, i: int)
      requires Valid()
      ensures st.Okay? <==> Index(items, node, key) >= -1
      ensures st.Okay? ==> i == Index(items, node, key) && -1 <= i < |items| + |node|
      ensures st.Error? ==> st == Error("invalid key to 'next'")
    {
      if key == Nil {
        return Okay, -1;
      }
      if InArray(items, key) {
        return Okay, key.n - 1;
      }
      i := FindNode(key);
      if i >= 0 {
        KeyAt(node, i);
        return Okay, i + |items|;
      }
      NoKey(node, key);
      return Error("invalid key to 'next'"), 0;
    }

    /** luaH_next: the next entry with a value, in the order of positions. */
    method Next(key: Value) returns (st: Status, more: bool, k: Value, v: Value)
      requires Valid()
      ensures st.Okay? <==> Index(items, node, key) >= -1
      ensures st.Okay? && more ==>
        k != Nil && v == Raw(items, node, k) != Nil && NextIndex(items, node, key, Index(items, node, k))
      ensures st.Okay? && !more ==> NextIndex(items, node, key, |items| + |node|)
    {
      var i;
      st, i := FindIndex(key);
      k, v, more := Nil, Nil, false;
      if st.Error? {
        return;
      }
      ghost var start := i;
      i := i + 1;
      while i < |items|
        invariant start < i && i <= |items| + |node|
        invariant forall j :: start < j < i ==> ValueAt(items, node, j) == Nil
      {
        if items[i] != Nil {
          assert ValueAt(items, node, i) != Nil;
          return Okay, true, Int(i + 1), items[i];
        }
        i := i + 1;
      }
      i := i - |items|;
      while i < |node|
        invariant 0 <= i <= |node| && start < i + |items|
        invariant forall j :: start < j < i + |items| ==> ValueAt(items, node, j) == Nil
      {
        if node[i].val != Nil {
          EntryAt(hash, items, node, dummy, lastfree, rank, top, i);
          assert ValueAt(items, node, i + |items|) != Nil;
          return Okay, true, node[i].key, node[i].val;
        }
        i := i + 1;
      }
    }

    /** A traversal that assigns to the fields it visits, perhaps clearing them,
        visits each field once. */
    method Traverse(assign: (Value, Value) -> Value) returns (keys: seq<Value>)
      requires Valid()
      modifies `items, `node, `dummy, `lastfree, `rank, `top
      ensures Valid() && Distinct(keys)
      ensures forall k :: k in keys <==> k != Nil && old(Raw(items, node, k)) != Nil
      ensures forall k :: k != Nil ==>
        Raw(items, node, k) == if k in keys then assign(k, old(Raw(items, node, k))) else old(Raw(items, node, k))
    {
      LiveIff(hash, items, node, dummy, lastfree, rank, top);
      VisitStart(items, node, assign);
      hide *;
      var key := Nil;
      ghost var items0, node0 := items, node;
      keys := [];
      while true
        invariant Valid() && Visiting(items0, node0, items, node, key, keys, assign)
        decreases |items0| + |node0| - Index(items0, node0, key)
      {
        VisitFacts(items0, node0, items, node, key, keys, assign);
        var st, more, k, v := Next(key);
        if !more {
          VisitedAll(items0, node0, items, node, key, keys, assign);
          return;
        }
        VisitNext(items0, node0, items, node, key, k, keys, assign);
        ghost var items1, node1 := items, node;
        st := Put(k, assign(k, v), false);
        Visited(items0, node0, items1, node1, items, node, key, k, keys, assign);
        key, keys := k, keys + [k];
      }
    }

    // ----- the border -----

    /** luaH_getnum. */
    method GetNum(key: int) returns (v: Value)
      requires Valid()
      ensures v == Raw(items, node, Int(key))
    {
      if 1 <= key <= |items| {
        return items[key - 1];
      }
      var n := FindNode(Int(key));
      if n >= 0 {
        KeyAt(node, n);
        return node[n].val;
      }
      NoKey(node, Int(key));
      return Nil;
    }

    /** unbound_search. */
    method UnboundSearch(j0: nat) returns (n: nat)
      requires Valid() && j0 < MAX_INT && (j0 == 0 || Raw(items, node, Int(j0)) != Nil)
      ensures IsBorder(items, node, n)
    {
      var i, j := j0, j0 + 1;
      var v := GetNum(j);
      while v != Nil
        invariant 0 <= i < j <= MAX_INT && (i == 0 || Raw(items, node, Int(i)) != Nil)
        invariant v == Raw(items, node, Int(j))
        decreases MAX_INT - j
      {
        i, j := j, j * 2;
        if j > MAX_INT {
          n := LinearSearch();
          return;
        }
        v := GetNum(j);
      }
      while j - i > 1
        invariant 0 <= i < j && (i == 0 || Raw(items, node, Int(i)) != Nil) && Raw(items, node, Int(j)) == Nil
      {
        var m := (i + j) / 2;
        v := GetNum(m);
        if v == Nil {
          j := m;
        } else {
          i := m;
        }
      }
      return i;
    }

    /** The fallback of unbound_search when doubling leaves the integers. */
    method LinearSearch() returns (n: nat)
      requires Valid()
      ensures IsBorder(items, node, n)
    {
      hide TableOk, Raw, Live;
      var i := 1;
      RunIsShort(items, node, 1);
      var v := GetNum(1);
      while v != Nil
        invariant 1 <= i <= |Live(items, node)| + 1 && v == Raw(items, node, Int(i))
        invariant forall k :: 1 <= k < i ==> Raw(items, node, Int(k)) != Nil
        decreases |Live(items, node)| + 1 - i
      {
        i := i + 1;
        RunIsShort(items, node, i);
        v := GetNum(i);
      }
      return i - 1;
    }

    /** luaH_getn. */
    method GetN() returns (n: nat)
      requires Valid()
      ensures n == 0 || Raw(items, node, Int(n)) != Nil
      ensures Raw(items, node, Int(n + 1)) == Nil
    {
      var j := |items|;
      if j > 0 && items[j - 1] == Nil {
        var i := 0;
        while j - i > 1
          invariant 0 <= i < j <= |items| && (i == 0 || items[i - 1] != Nil) && items[j - 1] == Nil
        {
          var m := (i + j) / 2;
          if items[m - 1] == Nil {
            j := m;
          } else {
            i := m;
          }
        }
        return i;
      } else if dummy {
        return j;
      }
      n := UnboundSearch(j);
    }
  }
}
