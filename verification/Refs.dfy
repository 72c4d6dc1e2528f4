/** References into a table: luaL_ref and luaL_unref of lauxlib.c. Free slots
    form a list that starts in slot zero. */
module Refs {
  import opened Wrappers
  import opened TableNodes
  import opened TableMaps
  import opened TableHash
  import opened TableWalk

  const FREELIST_REF := 0
  const REFNIL := -1

  /** The value in each numbered slot. */
  ghost function Slots(items: seq<Value>, node: seq<Node>): int -> Value {
    k => Raw(items, node, Int(k))
  }

  /** The slots from 1 to `n` are either live or in the free list, whose last slot
      holds nil. Other keys of the table are of no concern. */
  ghost predicate SlotsOk(slot: int -> Value, live: map<int, Value>, free: seq<int>, n: nat) {
    true <==> (
      && slot(FREELIST_REF) == (if free == [] then Nil else Int(free[0]))
      && (forall k :: 1 <= k <= n <==> k in live || k in free)
      && (forall k :: k > n ==> slot(k) == Nil)
      && (forall k :: k in live ==> live[k] != Nil && slot(k) == live[k] && k !in free)
      && (forall i :: 0 <= i < |free| ==> slot(free[i]) == NextFree(free, i))
      && (forall i, j :: 0 <= i < j < |free| ==> free[i] != free[j])
    )
  }

  function NextFree(free: seq<int>, i: nat): Value
    requires i < |free|
  {
    if i + 1 < |free| then Int(free[i + 1]) else Nil
  }

  class RefTable {
    const t: Table
    ghost var live: map<int, Value>
    ghost var free: seq<int>
    ghost var n: nat

    /** Any table without a value for a number from zero on. */
    constructor (t: Table)
      requires t.Valid() && forall k :: k >= 0 ==> Raw(t.items, t.node, Int(k)) == Nil
      ensures this.t == t && Valid() && live == map[]
    {
      this.t := t;
      live, free, n := map[], [], 0;
    }

    ghost predicate Valid()
      reads this, t
    {
      t.Valid() && SlotsOk(Slots(t.items, t.node), live, free, n)
    }

    /** luaL_ref: the reference is not a live one, and live ones keep their values. */
    method Ref(v: Value) returns (st: Status, ref: int)
      requires Valid()
      modifies `live, `free, `n, t
      ensures st.Okay? ==> Valid()
      ensures v == Nil ==> st.Okay? && ref == -1 && live == old(live)
      ensures v != Nil && st.Okay? ==> ref > 0 && ref !in old(live) && live == old(live)[ref := v]
      ensures v != Nil && st.Okay? && old(Raw(t.items, t.node, Int(0))) != Nil ==>
        old(Raw(t.items, t.node, Int(0))) == Int(ref)
    {
      if v == Nil {
        return Okay, REFNIL;
      }
      hide SlotsOk, NoHoles, Raw, Updated, TableOk, Live, NodesOk;
      ghost var items0, node0 := t.items, t.node;
      var first := t.Get(Int(FREELIST_REF));
      ref := if first.Int? then first.n else 0;
      FirstFree(Slots(items0, node0), live, free, n);
      if ref != 0 {
        st := RefFree(ref, v);
      } else {
        ref := t.GetN();
        OnlyBorder(items0, node0, live, n, ref);
        ref := ref + 1;
        st := t.Put(Int(ref), v, false);
        if st.Error? {
          return;
        }
        SlotSet(items0, node0, t.items, t.node, ref, v);
        TakeNew(Slots(items0, node0), Slots(t.items, t.node), live, n, v);
        live, n := live[ref := v], n + 1;
      }
    }

    /** The first slot of the free list is taken. */
    method RefFree(ref: int, v: Value) returns (st: Status)
      requires Valid() && free != [] && ref == free[0] && v != Nil
      modifies `live, `free, t
      ensures st.Okay? ==> Valid() && ref > 0 && ref !in old(live) && live == old(live)[ref := v]
    {
      hide SlotsOk, NoHoles, Raw, Updated, TableOk, Live, NodesOk;
      ghost var items0, node0 := t.items, t.node;
      FirstFree(Slots(items0, node0), live, free, n);
      var next := t.Get(Int(ref));
      st := t.Put(Int(FREELIST_REF), next, false);
      if st.Error? {
        return;
      }
      ghost var items1, node1 := t.items, t.node;
      st := t.Put(Int(ref), v, false);
      if st.Error? {
        return;
      }
      SlotSet(items0, node0, items1, node1, FREELIST_REF, next);
      SlotSet(items1, node1, t.items, t.node, ref, v);
      TakeFree(Slots(items0, node0), Slots(t.items, t.node), live, free, n, v);
      live, free := live[ref := v], free[1..];
    }

    /** luaL_unref, of a live reference, which is the next to be used again. */
    method Unref(ref: int) returns (st: Status)
      requires Valid() && (ref >= 0 ==> ref in live)
      modifies `live, `free, `n, t
      ensures st.Okay? ==> Valid() && live == old(live) - {ref}
      ensures st.Okay? && ref >= 0 ==> Raw(t.items, t.node, Int(0)) == Int(ref)
    {
      st := Okay;
      if ref >= 0 {
        ghost var items0, node0 := t.items, t.node;
        var first := t.Get(Int(FREELIST_REF));
        st := t.Put(Int(ref), first, false);
        if st.Error? {
          return;
        }
        ghost var items1, node1 := t.items, t.node;
        st := t.Put(Int(FREELIST_REF), Int(ref), false);
        if st.Error? {
          return;
        }
        SlotSet(items0, node0, items1, node1, ref, first);
        SlotSet(items1, node1, t.items, t.node, FREELIST_REF, Int(ref));
        GiveBack(Slots(items0, node0), Slots(t.items, t.node), live, free, n, ref);
        live, free := live - {ref}, [ref] + free;
      } else {
        NoNegative(Slots(t.items, t.node), live, free, n, ref);
      }
    }

    /** The value of a live reference. */
    method Value(ref: int) returns (v: Value)
      requires Valid() && ref in live
      ensures v == live[ref]
    {
      v := t.Get(Int(ref));
    }
  }

  lemma FirstFree(slot: int -> Value, live: map<int, Value>, free: seq<int>, n: nat)
    requires SlotsOk(slot, live, free, n)
    ensures free == [] <==> slot(FREELIST_REF) == Nil
    ensures free != [] ==> slot(FREELIST_REF) == Int(free[0]) && 1 <= free[0] <= n
    ensures free == [] ==> NoHoles(slot, live, n)
  {
  }

  /** With an empty free list the slots in use have no hole. */
  ghost predicate NoHoles(slot: int -> Value, live: map<int, Value>, n: nat) {
    true <==> (
      && slot(FREELIST_REF) == Nil
      && (forall k :: 1 <= k <= n <==> k in live)
      && (forall k :: k > n ==> slot(k) == Nil)
      && (forall k :: k in live ==> live[k] != Nil && slot(k) == live[k])
    )
  }

  /** The length is consulted only now, when the border is unique. */
  lemma OnlyBorder(items: seq<Value>, node: seq<Node>, live: map<int, Value>, n: nat, b: nat)
    requires NoHoles(Slots(items, node), live, n) && IsBorder(items, node, b)
    ensures b == n
  {
    var slot := Slots(items, node);
    assert b > n ==> slot(b) == Nil;
    assert b < n ==> b + 1 in live && slot(b + 1) != Nil;
  }

  lemma SlotSet(items: seq<Value>, node: seq<Node>, items': seq<Value>, node': seq<Node>, a: int, v: Value)
    requires Updated(items, node, items', node', Int(a), v)
    ensures forall k :: Slots(items', node')(k) == if k == a then v else Slots(items, node)(k)
  {
  }

  lemma TakeNew(slot: int -> Value, slot': int -> Value, live: map<int, Value>, n: nat, v: Value)
    requires NoHoles(slot, live, n) && v != Nil && forall k :: slot'(k) == if k == n + 1 then v else slot(k)
    ensures n + 1 !in live && SlotsOk(slot', live[n + 1 := v], [], n + 1)
  {
  }

  lemma RestOfFree(free: seq<int>)
    requires free != []
    ensures forall k :: k in free <==> k == free[0] || k in free[1..]
    ensures forall i :: 0 <= i < |free| - 1 ==>
      free[1..][i] == free[i + 1] && NextFree(free[1..], i) == NextFree(free, i + 1)
  {
  }

  lemma TakeFree(slot: int -> Value, slot': int -> Value, live: map<int, Value>, free: seq<int>, n: nat, v: Value)
    requires SlotsOk(slot, live, free, n) && free != [] && v != Nil
    requires forall k :: slot'(k) == if k == free[0] then v else if k == FREELIST_REF then slot(free[0]) else slot(k)
    ensures free[0] !in live && SlotsOk(slot', live[free[0] := v], free[1..], n)
  {
    var ref, rest := free[0], free[1..];
    RestOfFree(free);
    forall i | 0 <= i < |rest|
      ensures slot'(rest[i]) == NextFree(rest, i)
    {
      assert free[i + 1] == rest[i] && slot(free[i + 1]) == NextFree(free, i + 1);
    }
  }

  lemma GiveBack(slot: int -> Value, slot': int -> Value, live: map<int, Value>, free: seq<int>, n: nat, ref: int)
    requires SlotsOk(slot, live, free, n) && ref in live
    requires forall k ::
      slot'(k) == if k == FREELIST_REF then Int(ref) else if k == ref then slot(FREELIST_REF) else slot(k)
    ensures SlotsOk(slot', live - {ref}, [ref] + free, n)
  {
    var all := [ref] + free;
    assert all[1..] == free;
    RestOfFree(all);
    forall i | 0 <= i < |all|
      ensures slot'(all[i]) == NextFree(all, i)
    {
      if i > 0 {
        assert free[i - 1] == all[i] && slot(free[i - 1]) == NextFree(free, i - 1);
      }
    }
  }

  lemma NoNegative(slot: int -> Value, live: map<int, Value>, free: seq<int>, n: nat, ref: int)
    requires SlotsOk(slot, live, free, n) && ref < 0
    ensures live - {ref} == live
  {
    assert ref !in live;
  }
}
