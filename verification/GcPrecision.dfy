/** What a full collection leaves: the strongly reachable objects, the fixed
    ones, and the strings that clearing a weak table looked at. */
module GcPrecision {
  import opened GcHeap
  import opened GcLists
  import opened Wrappers

  ghost function StrongSet(h: Heap, name: Id, roots: set<Id>): set<Id> {
    set x | x in h && StrongReach(h, name, roots, x)
  }

  /** Marks that make exactly the objects of `s` marked. */
  ghost function MarksOf(h: Heap, s: set<Id>): map<Id, Colour> {
    map x | x in h :: if x in s then Gray else White0
  }

  /** A string looked at when the weak tables of `s` lose the entries that refer
      outside of `s`: a key of any entry, or a value whose key stays. */
  ghost predicate KeptByWeak(h: Heap, name: Id, s: set<Id>, y: Id) {
    y in h && h[y].Str? &&
    exists t :: t in s && t in h && Touches(h, MarksOf(h, s), h[t], HasMode(h, name, h[t], 'v'), y)
  }

  ghost function Survivors(h: Heap, name: Id, roots: set<Id>, fixed: set<Id>): set<Id> {
    set x | x in h && (x in StrongSet(h, name, roots) || x in fixed || KeptByWeak(h, name, StrongSet(h, name, roots), x))
  }

  /** What the atomic step reports: the final marks `m`, the cleared heap and
      the marks after clearing. `cw` is the white before the flip. */
  ghost predicate AtomicDone(h: Heap, name: Id, roots: set<Id>, m: map<Id, Colour>, s: set<Id>, cw: Colour,
                             weak: seq<Id>, vw: set<Id>, h': Heap, m': map<Id, Colour>) {
    true <==> (
      && m.Keys == h.Keys && (forall x :: x in m ==> m[x] != Other(cw))
      && MarksExact(h, name, roots, m, s)
      && WeakCleared(h, m, weak, vw, h')
      && StringMarks(h, m, m')
      && AllTouchExact(h, m, weak, vw, m')
      && FreshWeak(h, name, m, weak, vw)
    )
  }

  lemma AtomicTogether(h: Heap, name: Id, roots: set<Id>, m: map<Id, Colour>, s: set<Id>, cw: Colour,
                       weak: seq<Id>, vw: set<Id>, h': Heap, m': map<Id, Colour>)
    requires m.Keys == h.Keys && forall x :: x in h ==> m[x] != Other(cw)
    requires MarksExact(h, name, roots, m, s)
    requires WeakCleared(h, m, weak, vw, h')
    requires StringMarks(h, m, m')
    requires AllTouchExact(h, m, weak, vw, m')
    requires FreshWeak(h, name, m, weak, vw)
    ensures AtomicDone(h, name, roots, m, s, cw, weak, vw, h', m')
  {
  }

  lemma AtomicKept(h: Heap, name: Id, roots: set<Id>, m: map<Id, Colour>, s: set<Id>, cw: Colour,
                   weak: seq<Id>, vw: set<Id>, h': Heap, m': map<Id, Colour>)
    requires AtomicDone(h, name, roots, m, s, cw, weak, vw, h', m')
    ensures ReachableKept(h, roots, h')
  {
    ClearedKept(h, m, weak, vw, h', roots);
  }

  lemma GoneAgrees(h: Heap, m: map<Id, Colour>, s: set<Id>, v: Value)
    requires m.Keys == h.Keys
    requires forall x :: x in h ==> (!IsWhite(m[x]) <==> x in s)
    ensures Gone(h, m, v) == Gone(h, MarksOf(h, s), v)
  {
  }

  lemma TouchesAgrees(h: Heap, m: map<Id, Colour>, s: set<Id>, o: Object, items: bool, y: Id)
    requires m.Keys == h.Keys
    requires forall x :: x in h ==> (!IsWhite(m[x]) <==> x in s)
    ensures Touches(h, m, o, items, y) <==> Touches(h, MarksOf(h, s), o, items, y)
  {
    forall n: Node
      ensures NodeTouches(h, m, n, y) <==> NodeTouches(h, MarksOf(h, s), n, y)
    {
      GoneAgrees(h, m, s, n.key);
    }
  }

  /** A touched string is marked by clearing, or was marked before. */
  lemma KeptIsMarked(h: Heap, name: Id, roots: set<Id>, m: map<Id, Colour>, s: set<Id>, cw: Colour,
                     weak: seq<Id>, vw: set<Id>, h': Heap, m': map<Id, Colour>, y: Id)
    requires AtomicDone(h, name, roots, m, s, cw, weak, vw, h', m')
    requires forall x :: x in h ==> (!IsWhite(m[x]) <==> x in s)
    requires KeptByWeak(h, name, s, y)
    ensures y in m' && !IsWhite(m'[y])
  {
    var t :| t in s && t in h && Touches(h, MarksOf(h, s), h[t], HasMode(h, name, h[t], 'v'), y);
    TouchesAgrees(h, m, s, h[t], HasMode(h, name, h[t], 'v'), y);
    if t !in weak {
      assert Edge(h, t, y);
      assert y in m && !IsWhite(m[y]);
    }
  }

  lemma MarkedIsKept(h: Heap, name: Id, roots: set<Id>, m: map<Id, Colour>, s: set<Id>, cw: Colour,
                     weak: seq<Id>, vw: set<Id>, h': Heap, m': map<Id, Colour>, y: Id)
    requires AtomicDone(h, name, roots, m, s, cw, weak, vw, h', m')
    requires forall x :: x in h ==> (!IsWhite(m[x]) <==> x in s)
    requires y in m' && !IsWhite(m'[y])
    ensures y in s || KeptByWeak(h, name, s, y)
  {
    if IsWhite(m[y]) {
      var t :| t in weak && t in h && Touches(h, m, h[t], t in vw, y);
      assert t in vw <==> HasMode(h, name, h[t], 'v');
      TouchesAgrees(h, m, s, h[t], t in vw, y);
    }
  }

  /** From the atomic step to the end of the sweep. */
  lemma SweepLeaves(h: Heap, name: Id, roots: set<Id>, m: map<Id, Colour>, cw: Colour,
                    weak: seq<Id>, vw: set<Id>, h': Heap, m': map<Id, Colour>, fixed: set<Id>,
                    h2: Heap, m2: map<Id, Colour>)
    requires IsWhite(cw)
    requires AtomicDone(h, name, roots, m, StrongSet(h, name, roots), cw, weak, vw, h', m')
    requires forall x :: x in fixed ==> x in h
    requires Swept(h', m', h2, m2, fixed, Other(cw))
    requires AllCurrent(m2, Other(cw), h2.Keys)
    ensures h2.Keys == Survivors(h, name, roots, fixed)
  {
    var s := StrongSet(h, name, roots);
    MarkedIsStrong(h, name, roots, m, cw, weak, vw, h', m');
    forall x
      ensures x in h2 <==> x in Survivors(h, name, roots, fixed)
    {
      NotDeadAtEnd(h', m', h2, m2, fixed, Other(cw), x);
      if x in h2 && x !in fixed && x in h && !IsWhite(m'[x]) {
        MarkedIsKept(h, name, roots, m, s, cw, weak, vw, h', m', x);
      }
      if x in Survivors(h, name, roots, fixed) && x !in s && x !in fixed {
        KeptIsMarked(h, name, roots, m, s, cw, weak, vw, h', m', x);
      }
    }
  }

  lemma MarkedIsStrong(h: Heap, name: Id, roots: set<Id>, m: map<Id, Colour>, cw: Colour,
                       weak: seq<Id>, vw: set<Id>, h': Heap, m': map<Id, Colour>)
    requires AtomicDone(h, name, roots, m, StrongSet(h, name, roots), cw, weak, vw, h', m')
    ensures m'.Keys == h'.Keys == h.Keys
    ensures forall x :: x in h ==> x in m && (!IsWhite(m[x]) <==> x in StrongSet(h, name, roots))
    ensures forall x :: x in h ==> m'[x] != Other(cw) && (!IsWhite(m[x]) ==> !IsWhite(m'[x]))
  {
  }

  /** The end of a sweep whose dead colour is the other white of `cw`. */
  lemma NotDeadAtEnd(h: Heap, m: map<Id, Colour>, h2: Heap, m2: map<Id, Colour>, fixed: set<Id>, cw: Colour, x: Id)
    requires Swept(h, m, h2, m2, fixed, cw) && AllCurrent(m2, cw, h2.Keys) && m.Keys == h.Keys
    ensures x in h2 <==> x in h && (m[x] != Other(cw) || x in fixed)
  {
    assert x in h2 ==> NotDead(h2, m2, fixed, cw, x);
    assert x in h && (m[x] != Other(cw) || x in fixed) <==> NotDead(h, m, fixed, cw, x);
  }

  // ----- the unfinished sweep before a full collection changes none of this -----

  lemma SweptEdge(h: Heap, m: map<Id, Colour>, h1: Heap, m1: map<Id, Colour>, fixed: set<Id>, cw: Colour, z: Id, y: Id)
    requires HeapOk(h, m, fixed, cw) && Swept(h, m, h1, m1, fixed, cw)
    requires NotDead(h, m, fixed, cw, z)
    ensures Edge(h1, z, y) <==> Edge(h, z, y)
    ensures Edge(h, z, y) ==> NotDead(h, m, fixed, cw, y) && y in h1 && (h1[y].Str? <==> h[y].Str?)
  {
    assert z in h1 && SamePayload(h, h1, z);
    if h[z].Upval? {
      assert Edge(h, z, y) <==> ValueOf(h, z) == Ref(y);
      assert Edge(h1, z, y) <==> ValueOf(h1, z) == Ref(y);
    }
    if Edge(h, z, y) {
      assert NotDead(h, m, fixed, cw, y) && SamePayload(h, h1, y);
    }
  }

  lemma {:induction false} FindEdge(node: seq<Node>, key: Value)
    requires Find(node, key) != Nil
    ensures exists n :: n in node && n.key == key && n.val == Find(node, key)
  {
    if node[0].key == key {
      assert node[0] in node;
    } else {
      FindEdge(node[1..], key);
      var n :| n in node[1..] && n.key == key && n.val == Find(node[1..], key);
      assert n in node;
    }
  }

  lemma SweptMode(h: Heap, m: map<Id, Colour>, h1: Heap, m1: map<Id, Colour>, fixed: set<Id>, cw: Colour, name: Id,
      t: Id, c: char)
    requires HeapOk(h, m, fixed, cw) && Swept(h, m, h1, m1, fixed, cw)
    requires NotDead(h, m, fixed, cw, t) && h[t].Table?
    ensures t in h1 && h1[t] == h[t]
    ensures HasMode(h1, name, h1[t], c) <==> HasMode(h, name, h[t], c)
  {
    assert SamePayload(h, h1, t);
    if h[t].meta.Some? {
      var mt := h[t].meta.value;
      SweptEdge(h, m, h1, m1, fixed, cw, t, mt);
      assert Edge(h, t, mt) && SamePayload(h, h1, mt);
      if h[mt].Table? {
        var mode := Find(h[mt].node, Ref(name));
        if mode.Ref? {
          FindEdge(h[mt].node, Ref(name));
          assert Edge(h, mt, mode.id);
          SweptEdge(h, m, h1, m1, fixed, cw, mt, mode.id);
          assert SamePayload(h, h1, mode.id);
        }
      }
    }
  }

  lemma SweptStrongEdge(h: Heap, m: map<Id, Colour>, h1: Heap, m1: map<Id, Colour>, fixed: set<Id>, cw: Colour,
      name: Id, z: Id, y: Id)
    requires HeapOk(h, m, fixed, cw) && Swept(h, m, h1, m1, fixed, cw)
    requires NotDead(h, m, fixed, cw, z)
    ensures StrongEdge(h1, name, z, y) <==> StrongEdge(h, name, z, y)
  {
    assert z in h1 && SamePayload(h, h1, z);
    if h[z].Table? {
      SweptMode(h, m, h1, m1, fixed, cw, name, z, 'k');
      SweptMode(h, m, h1, m1, fixed, cw, name, z, 'v');
    } else {
      SweptEdge(h, m, h1, m1, fixed, cw, z, y);
      assert !h1[z].Table?;
    }
  }

  lemma SweptStrongSet(h: Heap, m: map<Id, Colour>, h1: Heap, m1: map<Id, Colour>, fixed: set<Id>, cw: Colour, name: Id,
      roots: set<Id>)
    requires HeapOk(h, m, fixed, cw) && Swept(h, m, h1, m1, fixed, cw)
    requires forall r :: r in roots ==> NotDead(h, m, fixed, cw, r)
    ensures StrongSet(h1, name, roots) == StrongSet(h, name, roots)
    ensures forall x :: x in StrongSet(h, name, roots) ==> NotDead(h, m, fixed, cw, x)
  {
    var alive := set x | x in h && NotDead(h, m, fixed, cw, x);
    forall r | r in roots
      ensures r in alive
    {
      assert NotDead(h, m, fixed, cw, r);
    }
    forall z, y | z in alive
      ensures StrongEdge(h, name, z, y) <==> StrongEdge(h1, name, z, y)
      ensures StrongEdge(h, name, z, y) ==> y in alive
    {
      SweptStrongEdge(h, m, h1, m1, fixed, cw, name, z, y);
      if StrongEdge(h, name, z, y) {
        StrongIsEdge(h, name, z, y);
      }
    }
    assert StrongClosed(h, name, alive);
    forall x
      ensures StrongReach(h1, name, roots, x) <==> StrongReach(h, name, roots, x)
      ensures StrongReach(h, name, roots, x) ==> x in alive
    {
      StrongReachLocal(h, h1, name, roots, alive, x);
    }
    forall x | x in alive
      ensures x in h1
    {
      assert NotDead(h, m, fixed, cw, x);
    }
  }

  /** An entry of a live table is judged alike before and after the sweep. */
  lemma SweptGone(h: Heap, m: map<Id, Colour>, h1: Heap, m1: map<Id, Colour>, fixed: set<Id>, cw: Colour, s: set<Id>,
      t: Id, v: Value)
    requires HeapOk(h, m, fixed, cw) && Swept(h, m, h1, m1, fixed, cw)
    requires NotDead(h, m, fixed, cw, t)
    requires v.Ref? ==> Edge(h, t, v.id)
    ensures Gone(h1, MarksOf(h1, s), v) == Gone(h, MarksOf(h, s), v)
  {
    if v.Ref? {
      SweptEdge(h, m, h1, m1, fixed, cw, t, v.id);
    }
  }

  lemma SweptTable(h: Heap, m: map<Id, Colour>, h1: Heap, m1: map<Id, Colour>, fixed: set<Id>, cw: Colour, s: set<Id>,
      t: Id)
    requires HeapOk(h, m, fixed, cw) && Swept(h, m, h1, m1, fixed, cw)
    requires NotDead(h, m, fixed, cw, t) && h[t].Table?
    ensures forall v :: v in h[t].items ==> (Gone(h1, MarksOf(h1, s), v) <==> Gone(h, MarksOf(h, s), v))
    ensures forall n :: n in h[t].node ==> ClearNode(h1, MarksOf(h1, s), n) == ClearNode(h, MarksOf(h, s), n)
    ensures forall items, y :: Touches(h1, MarksOf(h1, s), h[t], items, y) <==>
      Touches(h, MarksOf(h, s), h[t], items, y)
  {
    forall v | v in h[t].items
      ensures Gone(h1, MarksOf(h1, s), v) == Gone(h, MarksOf(h, s), v)
    {
      assert v.Ref? ==> Edge(h, t, v.id);
      SweptGone(h, m, h1, m1, fixed, cw, s, t, v);
    }
    forall n | n in h[t].node && n.val != Nil
      ensures Gone(h1, MarksOf(h1, s), n.key) == Gone(h, MarksOf(h, s), n.key)
      ensures Gone(h1, MarksOf(h1, s), n.val) == Gone(h, MarksOf(h, s), n.val)
    {
      assert n.key.Ref? ==> Edge(h, t, n.key.id);
      assert n.val.Ref? ==> Edge(h, t, n.val.id);
      SweptGone(h, m, h1, m1, fixed, cw, s, t, n.key);
      SweptGone(h, m, h1, m1, fixed, cw, s, t, n.val);
    }
    forall n, y | n in h[t].node
      ensures NodeTouches(h1, MarksOf(h1, s), n, y) <==> NodeTouches(h, MarksOf(h, s), n, y)
    {
    }
  }

  lemma SweptSurvivors(h: Heap, m: map<Id, Colour>, h1: Heap, m1: map<Id, Colour>, fixed: set<Id>, cw: Colour, name: Id,
      roots: set<Id>)
    requires HeapOk(h, m, fixed, cw) && Swept(h, m, h1, m1, fixed, cw)
    requires forall r :: r in roots ==> NotDead(h, m, fixed, cw, r)
    requires forall x :: x in fixed ==> NotDead(h, m, fixed, cw, x)
    ensures Survivors(h1, name, roots, fixed) == Survivors(h, name, roots, fixed)
  {
    SweptStrongSet(h, m, h1, m1, fixed, cw, name, roots);
    var s := StrongSet(h, name, roots);
    forall y
      ensures KeptByWeak(h1, name, s, y) <==> KeptByWeak(h, name, s, y)
    {
      KeptAlike(h, m, h1, m1, fixed, cw, name, s, y);
    }
    forall x | x in fixed
      ensures x in h && x in h1
    {
      assert NotDead(h, m, fixed, cw, x);
    }
  }

  lemma KeptAlike(h: Heap, m: map<Id, Colour>, h1: Heap, m1: map<Id, Colour>, fixed: set<Id>, cw: Colour, name: Id,
      s: set<Id>, y: Id)
    requires HeapOk(h, m, fixed, cw) && Swept(h, m, h1, m1, fixed, cw)
    requires forall x :: x in s ==> NotDead(h, m, fixed, cw, x)
    ensures KeptByWeak(h1, name, s, y) <==> KeptByWeak(h, name, s, y)
  {
    forall t | t in s && t in h && h[t].Table?
      ensures t in h1 && (Touches(h1, MarksOf(h1, s), h1[t], HasMode(h1, name, h1[t], 'v'), y)
        <==> Touches(h, MarksOf(h, s), h[t], HasMode(h, name, h[t], 'v'), y))
      ensures Touches(h, MarksOf(h, s), h[t], HasMode(h, name, h[t], 'v'), y) ==>
        y in h && y in h1 && (h1[y].Str? <==> h[y].Str?)
    {
      SweptMode(h, m, h1, m1, fixed, cw, name, t, 'v');
      SweptTable(h, m, h1, m1, fixed, cw, s, t);
      if Touches(h, MarksOf(h, s), h[t], HasMode(h, name, h[t], 'v'), y) {
        assert Edge(h, t, y);
        SweptEdge(h, m, h1, m1, fixed, cw, t, y);
      }
    }
    forall t | t in s && t in h1 && h1[t].Table?
      ensures t in h && h[t].Table?
    {
      assert SamePayload(h, h1, t);
    }
  }

  // ----- contents -----

  /** What became of the contents of a surviving object: of a table, exactly the
      entries that refer outside of `s` are gone; nothing else changed. */
  ghost predicate ContentsExact(h: Heap, name: Id, s: set<Id>, h': Heap, x: Id)
    requires x in h && x in h'
  {
    if h[x].Table? then
      x in s && h'[x].Table? && TableCleared(h, MarksOf(h, s), HasMode(h, name, h[x], 'v'), h[x], h'[x])
    else SamePayload(h, h', x)
  }

  lemma AtomicContents(h: Heap, name: Id, roots: set<Id>, m: map<Id, Colour>, cw: Colour,
                       weak: seq<Id>, vw: set<Id>, h': Heap, m': map<Id, Colour>, x: Id)
    requires AtomicDone(h, name, roots, m, StrongSet(h, name, roots), cw, weak, vw, h', m')
    requires x in h && (h[x].Table? ==> x in StrongSet(h, name, roots))
    ensures x in h' && ContentsExact(h, name, StrongSet(h, name, roots), h', x)
  {
    var s := StrongSet(h, name, roots);
    assert forall x :: x in h ==> (!IsWhite(m[x]) <==> x in s);
    if h[x].Table? {
      forall v: Value
        ensures Gone(h, m, v) == Gone(h, MarksOf(h, s), v)
      {
        GoneAgrees(h, m, s, v);
      }
      if x !in weak {
        NothingGone(h, m, x);
      }
      ClearedAlike(h, m, MarksOf(h, s), HasMode(h, name, h[x], 'v'), h[x], h'[x]);
    } else if h[x].Upval? {
      assert ValueOf(h', x) == ValueOf(h, x);
    }
  }

  lemma ClearedAlike(h: Heap, m: map<Id, Colour>, m': map<Id, Colour>, items: bool, was: Object, now: Object)
    requires was.Table? && now.Table?
    requires forall v: Value :: Gone(h, m, v) == Gone(h, m', v)
    ensures TableCleared(h, m, items, was, now) <==> TableCleared(h, m', items, was, now)
  {
  }

  lemma NothingGone(h: Heap, m: map<Id, Colour>, t: Id)
    requires t in h && h[t].Table?
    requires forall y :: Edge(h, t, y) ==> y in m && !IsWhite(m[y])
    ensures TableCleared(h, m, true, h[t], h[t]) && TableCleared(h, m, false, h[t], h[t])
  {
    forall v | v in h[t].items
      ensures !Gone(h, m, v)
    {
      assert v.Ref? ==> Edge(h, t, v.id);
    }
    forall n | n in h[t].node
      ensures ClearNode(h, m, n) == n
    {
      if n.val != Nil {
        assert n.key.Ref? ==> Edge(h, t, n.key.id);
        assert n.val.Ref? ==> Edge(h, t, n.val.id);
      }
    }
  }

  // ----- the whole collection -----

  lemma StrongSetFacts(h: Heap, name: Id, roots: set<Id>)
    requires roots <= h.Keys && StrongClosed(h, name, h.Keys)
    ensures roots <= StrongSet(h, name, roots) && StrongClosed(h, name, StrongSet(h, name, roots))
  {
    forall r | r in roots
      ensures r in StrongSet(h, name, roots)
    {
      assert r in h.Keys;
    }
    forall x, y | x in StrongSet(h, name, roots) && StrongEdge(h, name, x, y)
      ensures y in StrongSet(h, name, roots)
    {
      assert x in h.Keys;
      forall s: set<Id> | roots <= s && StrongClosed(h, name, s)
        ensures y in s
      {
        assert x in s;
      }
    }
  }

  /** The objects left by a full collection: the rest of an old sweep, from `h0`
      to `h1`, a mark phase, from `h1` to `h2`, and its sweep, from `h2` to `h3`. */
  lemma FullKeys(h0: Heap, m0: map<Id, Colour>, h1: Heap, m1: map<Id, Colour>, fixed: set<Id>, cw: Colour, name: Id,
      roots: set<Id>,
                 m: map<Id, Colour>, weak: seq<Id>, vw: set<Id>, h2: Heap, m2: map<Id, Colour>, h3: Heap, m3: map<Id, Colour>)
    requires IsWhite(cw) && HeapOk(h0, m0, fixed, cw) && Swept(h0, m0, h1, m1, fixed, cw)
    requires forall r :: r in roots ==> NotDead(h0, m0, fixed, cw, r)
    requires forall x :: x in fixed ==> x in h0
    requires AtomicDone(h1, name, roots, m, StrongSet(h1, name, roots), cw, weak, vw, h2, m2)
    requires Swept(h2, m2, h3, m3, fixed, Other(cw)) && AllCurrent(m3, Other(cw), h3.Keys)
    ensures h3.Keys == Survivors(h0, name, roots, fixed)
  {
    forall x | x in fixed
      ensures NotDead(h0, m0, fixed, cw, x) && x in h1
    {
      assert x in h0 && m0.Keys == h0.Keys;
      assert NotDead(h0, m0, fixed, cw, x);
    }
    SweptSurvivors(h0, m0, h1, m1, fixed, cw, name, roots);
    SweepLeaves(h1, name, roots, m, cw, weak, vw, h2, m2, fixed, h3, m3);
  }

  lemma FullContents(h0: Heap, m0: map<Id, Colour>, h1: Heap, m1: map<Id, Colour>, fixed: set<Id>, cw: Colour, name: Id,
      roots: set<Id>,
                     m: map<Id, Colour>, weak: seq<Id>, vw: set<Id>, h2: Heap, m2: map<Id, Colour>, h3: Heap, m3: map<Id, Colour>, x: Id)
    requires IsWhite(cw) && HeapOk(h0, m0, fixed, cw) && Swept(h0, m0, h1, m1, fixed, cw)
    requires forall r :: r in roots ==> NotDead(h0, m0, fixed, cw, r)
    requires forall y :: y in fixed ==> y in h0 && !h0[y].Table?
    requires AtomicDone(h1, name, roots, m, StrongSet(h1, name, roots), cw, weak, vw, h2, m2)
    requires Swept(h2, m2, h3, m3, fixed, Other(cw))
    requires x in h3 && x in Survivors(h0, name, roots, fixed)
    ensures x in h0 && ContentsExact(h0, name, StrongSet(h0, name, roots), h3, x)
  {
    var s := StrongSet(h0, name, roots);
    SweptStrongSet(h0, m0, h1, m1, fixed, cw, name, roots);
    assert x in h2 && x in h1 && x in h0;
    assert SamePayload(h0, h1, x) && SamePayload(h2, h3, x);
    AtomicContents(h1, name, roots, m, cw, weak, vw, h2, m2, x);
    assert ContentsExact(h1, name, s, h2, x);
    if h0[x].Table? {
      assert x in s && NotDead(h0, m0, fixed, cw, x);
      SweptMode(h0, m0, h1, m1, fixed, cw, name, x, 'v');
      SweptTable(h0, m0, h1, m1, fixed, cw, s, x);
      assert h1[x] == h0[x] && h3[x] == h2[x];
      ClearedTable(h0, MarksOf(h0, s), h1, MarksOf(h1, s), HasMode(h0, name, h0[x], 'v'), h0[x], h3[x]);
    }
  }

  lemma ClearedTable(h: Heap, m: map<Id, Colour>, h1: Heap, m1: map<Id, Colour>, items: bool, was: Object, now: Object)
    requires was.Table? && now.Table?
    requires forall v :: v in was.items ==> (Gone(h1, m1, v) <==> Gone(h, m, v))
    requires forall n :: n in was.node ==> ClearNode(h1, m1, n) == ClearNode(h, m, n)
    requires TableCleared(h1, m1, items, was, now)
    ensures TableCleared(h, m, items, was, now)
  {
  }
}
