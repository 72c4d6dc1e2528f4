/** The colours of objects, the lists every object is on, and what clearing a
    weak table does, as facts about plain values. */
module GcLists {
  import opened GcHeap
  import opened Wrappers

  /** White comes in two shades; a string, an open upvalue or an object waiting
      to be traversed is gray. */
  datatype Colour = White0 | White1 | Gray | Black

  datatype GcState = Pause | Propagate | SweepString | Sweep | Finalize

  predicate IsWhite(c: Colour) {
    c == White0 || c == White1
  }

  function Other(c: Colour): Colour {
    if c == White0 then White1 else White0
  }

  /** Objects that are pushed on a gray list when marked. */
  predicate Listable(o: Object) {
    o.Table? || o.CClosure? || o.LClosure? || o.Thread? || o.Proto?
  }

  predicate MayBeBlack(o: Object) {
    !o.Str? && !o.Thread? && !IsOpen(o)
  }

  ghost function WhiteOnes(marked: map<Id, Colour>): set<Id> {
    set x | x in marked && IsWhite(marked[x])
  }

  /** What marking does: white objects may become gray or black, others keep
      their colour, and only objects that were white are pushed. */
  ghost predicate MarkStep(was: map<Id, Colour>, grayWas: seq<Id>, now: map<Id, Colour>, grayNow: seq<Id>) {
    true <==> (
      && now.Keys == was.Keys
      && (forall x :: x in was ==> now[x] == was[x] || (IsWhite(was[x]) && !IsWhite(now[x])))
      && (forall x :: x in grayNow ==> x in grayWas || (x in was && IsWhite(was[x])))
      && (WhiteOnes(now) == WhiteOnes(was) ==> grayNow == grayWas)
    )
  }

  lemma MarkStepSelf(m: map<Id, Colour>, g: seq<Id>)
    ensures MarkStep(m, g, m, g)
  {
  }

  lemma MarkStepChain(was: map<Id, Colour>, grayWas: seq<Id>, mid: map<Id, Colour>, grayMid: seq<Id>,
                      now: map<Id, Colour>, grayNow: seq<Id>)
    requires MarkStep(was, grayWas, mid, grayMid) && MarkStep(mid, grayMid, now, grayNow)
    ensures MarkStep(was, grayWas, now, grayNow)
    ensures WhiteOnes(now) <= WhiteOnes(mid) <= WhiteOnes(was)
  {
    MarkStepWhites(was, grayWas, mid, grayMid);
    MarkStepWhites(mid, grayMid, now, grayNow);
  }

  lemma MarkStepWhites(was: map<Id, Colour>, grayWas: seq<Id>, now: map<Id, Colour>, grayNow: seq<Id>)
    requires MarkStep(was, grayWas, now, grayNow)
    ensures WhiteOnes(now) <= WhiteOnes(was)
    ensures forall x :: x in was && IsWhite(was[x]) && !IsWhite(now[x]) ==> WhiteOnes(now) < WhiteOnes(was)
  {
    forall x | x in WhiteOnes(now)
      ensures x in WhiteOnes(was)
    {
      assert x in now.Keys;
    }
    forall x | x in was && IsWhite(was[x]) && !IsWhite(now[x])
      ensures WhiteOnes(now) < WhiteOnes(was)
    {
      assert x in WhiteOnes(was) && x !in WhiteOnes(now);
    }
  }

  lemma MarkStepColour(was: map<Id, Colour>, grayWas: seq<Id>, now: map<Id, Colour>, grayNow: seq<Id>, x: Id)
    requires MarkStep(was, grayWas, now, grayNow) && x in was && !IsWhite(was[x])
    ensures x in now && now[x] == was[x]
  {
  }

  lemma NotPushed(was: map<Id, Colour>, grayWas: seq<Id>, now: map<Id, Colour>, grayNow: seq<Id>, x: Id)
    requires MarkStep(was, grayWas, now, grayNow) && x in was && !IsWhite(was[x]) && x !in grayWas
    ensures x !in grayNow
  {
  }

  lemma RecolourWhites(m: map<Id, Colour>, g: seq<Id>, x: Id, c: Colour)
    requires x in m && !IsWhite(c)
    ensures !IsWhite(m[x]) ==> WhiteOnes(m[x := c]) == WhiteOnes(m)
    ensures IsWhite(m[x]) ==>
      MarkStep(m, g, m[x := c], g) && x in WhiteOnes(m) && WhiteOnes(m[x := c]) == WhiteOnes(m) - {x}
  {
    assert forall y :: y in WhiteOnes(m[x := c]) <==> y in WhiteOnes(m) && y != x;
  }

  lemma MarkStepRecolour(was: map<Id, Colour>, grayWas: seq<Id>, now: map<Id, Colour>, grayNow: seq<Id>, x: Id,
      c: Colour)
    requires MarkStep(was, grayWas, now, grayNow)
    requires x in was && IsWhite(was[x]) && x in now && !IsWhite(now[x]) && !IsWhite(c)
    ensures MarkStep(was, grayWas, now[x := c], grayNow)
    ensures WhiteOnes(now[x := c]) == WhiteOnes(now)
  {
    assert forall y :: y in WhiteOnes(now[x := c]) <==> y in WhiteOnes(now);
  }

  lemma DropFirst(s: seq<Id>)
    requires s != []
    ensures SetOf(s) == SetOf(s[1..]) + {s[0]}
  {
  }

  lemma SetOfNothing()
    ensures SetOf<Id>([]) == {}
  {
  }

  lemma InsertDistinct(a: seq<Id>, h: Id, b: seq<Id>)
    requires Distinct(a + b) && h !in a + b
    ensures Distinct(a + [h] + b)
  {
    var was, now := a + b, a + [h] + b;
    forall i, j | 0 <= i < j < |now|
      ensures now[i] != now[j]
    {
      var i', j' := if i < |a| then i else i - 1, if j < |a| then j else j - 1;
      assert i != |a| ==> now[i] == was[i'];
      assert j != |a| ==> now[j] == was[j'];
    }
  }

  // ----- lists -----

  /** Not to be freed by the sweep that is going on or comes next: no dead
      colour, or fixed. */
  ghost predicate NotDead(h: Heap, m: map<Id, Colour>, fixed: set<Id>, cw: Colour, x: Id) {
    x in h && x in m && (m[x] != Other(cw) || x in fixed)
  }

  ghost predicate AliveClosed(h: Heap, m: map<Id, Colour>, fixed: set<Id>, cw: Colour) {
    forall x, y :: NotDead(h, m, fixed, cw, x) && Edge(h, x, y) ==> NotDead(h, m, fixed, cw, y)
  }

  ghost predicate NamesAreStrings(h: Heap, x: Id)
    requires x in h
  {
    h[x].Proto? ==>
      && (h[x].source.Some? ==> h[x].source.value in h && h[h[x].source.value].Str?)
      && (forall y :: y in h[x].upvalueNames ==> y in h && h[y].Str?)
      && (forall y :: y in h[x].localNames ==> y in h && h[y].Str?)
  }

  ghost predicate Consistent(h: Heap, m: map<Id, Colour>, fixed: set<Id>, cw: Colour) {
    true <==> (
      && m.Keys == h.Keys
      && IsWhite(cw)
      && (forall x :: x in h && m[x] == Black ==> MayBeBlack(h[x]))
      && (forall x :: NotDead(h, m, fixed, cw, x) ==> NamesAreStrings(h, x))
    )
  }

  /** Every string is interned: in the bucket of its hash, once, and the only
      one with its text. */
  ghost predicate StringsListed(h: Heap, strt: seq<seq<Id>>, nuse: nat, hash: string -> nat) {
    true <==> (
      && |strt| > 0
      && (forall b, x :: 0 <= b < |strt| && x in strt[b] ==>
        x in h && h[x].Str? && hash(h[x].text) % |strt| == b)
      && (forall b :: 0 <= b < |strt| ==> Distinct(strt[b]))
      && (forall x :: x in h && h[x].Str? ==> x in strt[hash(h[x].text) % |strt|])
      && (forall x, y :: x in h && y in h && h[x].Str? && h[y].Str? && h[x].text == h[y].text ==> x == y)
      && nuse == |Strings(h)|
    )
  }

  ghost predicate RootsListed(h: Heap, rootgc: seq<Id>) {
    true <==> (
      && Distinct(rootgc)
      && forall x :: x in rootgc <==> x in h && !h[x].Str? && !IsOpen(h[x])
    )
  }

  /** The open upvalues of a thread, by strictly decreasing level: at most one
      for each stack slot. */
  ghost predicate OpenList(h: Heap, t: Id)
    requires t in h && h[t].Thread?
  {
    var l := h[t].openupval;
    && (forall u :: u in l ==> u in h && IsOpen(h[u]) && h[u].place.thread == t)
    && (forall i, j :: 0 <= i < j < |l| ==> Level(h, l[i]) > Level(h, l[j]))
  }

  /** The lists of the threads and the global list hold the same upvalues. */
  ghost predicate UpvalsListed(h: Heap, uvhead: seq<Id>) {
    true <==> (
      && (forall t :: t in h && h[t].Thread? ==> OpenList(h, t))
      && (forall u :: u in h && IsOpen(h[u]) ==>
        var t := h[u].place.thread;
        t in h && h[t].Thread? && h[u].place.slot < |h[t].stack| && u in h[t].openupval)
      && Distinct(uvhead)
      && (forall u :: u in uvhead <==> u in h && IsOpen(h[u]))
    )
  }

  ghost predicate ListsOk(h: Heap, strt: seq<seq<Id>>, nuse: nat, hash: string -> nat, rootgc: seq<Id>,
      uvhead: seq<Id>)
  {
    true <==> (
      StringsListed(h, strt, nuse, hash) && RootsListed(h, rootgc) && UpvalsListed(h, uvhead)
    )
  }

  ghost predicate Rooted(h: Heap, fixed: set<Id>, mainthread: Id, running: Id, modeName: Id) {
    true <==> (
      && mainthread in h && h[mainthread].Thread?
      && running in h && h[running].Thread?
      && (forall x :: x in fixed ==> x in h && (h[x].Str? || x == mainthread))
      && modeName in fixed && modeName in h && h[modeName] == Str("__mode")
    )
  }

  ghost predicate AllCurrent(m: map<Id, Colour>, cw: Colour, s: set<Id>) {
    forall x :: x in s ==> x in m && m[x] == cw
  }

  /** The two heaps differ in the contents of tables only. */
  ghost predicate TablesOnly(h: Heap, h': Heap) {
    true <==> (
      && h'.Keys == h.Keys
      && (forall x :: x in h ==> x in h' && (h'[x] == h[x] || (h[x].Table? && h'[x].Table?)))
      && (forall x :: x in h' ==> x in h)
    )
  }

  lemma ClearedTablesOnly(h: Heap, m: map<Id, Colour>, weak: seq<Id>, valueweak: set<Id>, h': Heap)
    requires WeakCleared(h, m, weak, valueweak, h')
    ensures TablesOnly(h, h')
  {
  }

  ghost function Strings(h: Heap): set<Id> {
    set x | x in h && h[x].Str?
  }

  function Level(h: Heap, u: Id): nat
    requires u in h && IsOpen(h[u])
  {
    h[u].place.slot
  }

  ghost function OpenOnes(h: Heap): set<Id> {
    set u | u in h && IsOpen(h[u])
  }

  /** The open upvalues of the threads in `s`. */
  ghost function OpenOf(h: Heap, s: set<Id>): set<Id> {
    set u | u in h && IsOpen(h[u]) && h[u].place.thread in s
  }

  /** Nothing but the tables of `weak` changed, and those were cleared. */
  ghost predicate WeakCleared(h: Heap, m: map<Id, Colour>, weak: seq<Id>, valueweak: set<Id>, h': Heap) {
    true <==> (
      && h'.Keys == h.Keys
      && (forall x :: x in h && x !in weak ==> h'[x] == h[x])
      && (forall x :: x in h && x in weak ==>
        h[x].Table? && h'[x].Table? && TableCleared(h, m, x in valueweak, h[x], h'[x]))
    )
  }

  /** Every table of the weak list has all its strong edges marked, and none of
      its edges dangles. */
  ghost predicate WeakReady(h: Heap, m: map<Id, Colour>, weak: seq<Id>, kw: set<Id>, vw: set<Id>) {
    true <==> (
      && m.Keys == h.Keys && Distinct(weak)
      && (forall x :: x in weak ==> x in h && h[x].Table?)
      && (forall x, y :: x in weak && Edge(h, x, y) ==> y in h)
      && (forall x, y :: x in weak && x in h && h[x].Table? && TableEdge(h[x], x in kw, x in vw, y) ==> y in m && !IsWhite(m[y]))
    )
  }

  lemma WeakReadyAt(h: Heap, m: map<Id, Colour>, weak: seq<Id>, kw: set<Id>, vw: set<Id>, i: nat, h1: Heap, m1: map<Id,
      Colour>)
    requires WeakReady(h, m, weak, kw, vw) && i < |weak|
    requires WeakCleared(h, m, weak[..i], vw, h1) && StringMarks(h, m, m1)
    ensures m1.Keys == h1.Keys && weak[i] in h1 && h1[weak[i]].Table?
    ensures forall y :: Edge(h1, weak[i], y) ==> y in h1
    ensures forall y :: TableEdge(h1[weak[i]], weak[i] in kw, weak[i] in vw, y) ==> y in m1 && !IsWhite(m1[y])
  {
    var t := weak[i];
    assert t in weak && t !in weak[..i];
    BeforeClearing(h, m, weak[..i], vw, h1, m1, t);
  }

  lemma WeakReadyFacts(h: Heap, m: map<Id, Colour>, weak: seq<Id>, kw: set<Id>, vw: set<Id>)
    requires WeakReady(h, m, weak, kw, vw)
    ensures m.Keys == h.Keys && Distinct(weak) && forall x :: x in weak ==> x in h && h[x].Table?
  {
  }

  lemma BeforeClearing(h: Heap, m: map<Id, Colour>, done: seq<Id>, vw: set<Id>, h1: Heap, m1: map<Id, Colour>, t: Id)
    requires WeakCleared(h, m, done, vw, h1) && StringMarks(h, m, m1)
    requires t in h && h[t].Table? && t !in done
    ensures h1.Keys == h.Keys && m1.Keys == m.Keys && h1[t] == h[t]
    ensures forall y :: Edge(h1, t, y) <==> Edge(h, t, y)
    ensures forall x :: x in h1 && h1[x].Str? ==> x in h && h[x].Str?
    ensures forall y :: y in m && !IsWhite(m[y]) ==> y in m1 && !IsWhite(m1[y])
  {
  }

  /** All edges of the listed objects lead to marked ones. */
  ghost predicate EdgesMarked(h: Heap, m: map<Id, Colour>, ids: seq<Id>) {
    forall x, y :: x in ids && Edge(h, x, y) ==> y in m && !IsWhite(m[y])
  }

  lemma MarkedEdges(h: Heap, m: map<Id, Colour>, ids: seq<Id>)
    requires EdgesMarked(h, m, ids)
    ensures forall x, y :: x in ids && Edge(h, x, y) ==> y in m && !IsWhite(m[y])
  {
  }

  lemma ClearingStarts(h: Heap, m: map<Id, Colour>, vw: set<Id>)
    ensures WeakCleared(h, m, [], vw, h) && StringMarks(h, m, m) && EdgesMarked(h, m, [])
    ensures AllTouchExact(h, m, [], vw, m)
  {
  }

  lemma AfterClearing(h: Heap, m: map<Id, Colour>, weak: seq<Id>, i: nat, vw: set<Id>,
                      h1: Heap, m1: map<Id, Colour>, h2: Heap, m2: map<Id, Colour>)
    requires i < |weak| && Distinct(weak)
    requires WeakCleared(h, m, weak[..i], vw, h1) && StringMarks(h, m, m1) && EdgesMarked(h1, m1, weak[..i])
    requires forall x :: x in weak ==> x in h && h[x].Table?
    requires weak[i] in h2 && h2[weak[i]].Table? && weak[i] in h1 && h1[weak[i]].Table?
    requires h2 == h1[weak[i] := h2[weak[i]]]
    requires TableCleared(h1, m1, weak[i] in vw, h1[weak[i]], h2[weak[i]])
    requires StringMarks(h1, m1, m2)
    requires forall y :: Edge(h2, weak[i], y) ==> y in m2 && !IsWhite(m2[y])
    requires AllTouchExact(h, m, weak[..i], vw, m1)
    requires TouchExact(h1, m1, h1[weak[i]], weak[i] in vw, m2)
    ensures AllTouchExact(h, m, weak[..i + 1], vw, m2)
    ensures WeakCleared(h, m, weak[..i + 1], vw, h2)
    ensures StringMarks(h, m, m2)
    ensures EdgesMarked(h2, m2, weak[..i + 1])
  {
    var t := weak[i];
    assert weak[..i + 1] == weak[..i] + [t];
    assert t !in weak[..i];
    ClearedStable(h, m, h1, m1, t in vw, h[t], h2[t]);
    AfterTouching(h, m, weak, i, vw, h1, m1, m2);
    forall x, y | x in weak[..i] && Edge(h2, x, y)
      ensures y in m2 && !IsWhite(m2[y])
    {
      assert x in weak;
      assert Edge(h1, x, y);
    }
  }

  lemma AfterTouching(h: Heap, m: map<Id, Colour>, weak: seq<Id>, i: nat, vw: set<Id>,
                      h1: Heap, m1: map<Id, Colour>, m2: map<Id, Colour>)
    requires i < |weak| && weak[i] in h && weak[i] in h1 && h1[weak[i]] == h[weak[i]]
    requires StringMarks(h, m, m1) && StringMarks(h1, m1, m2) && h1.Keys == h.Keys
    requires forall x :: x in h ==> (h1[x].Str? <==> h[x].Str?)
    requires AllTouchExact(h, m, weak[..i], vw, m1)
    requires TouchExact(h1, m1, h1[weak[i]], weak[i] in vw, m2)
    ensures AllTouchExact(h, m, weak[..i + 1], vw, m2)
  {
    var t := weak[i];
    assert weak[..i + 1] == weak[..i] + [t];
    forall y
      ensures Touches(h1, m1, h[t], t in vw, y) <==> Touches(h, m, h[t], t in vw, y)
    {
      forall n: Node
        ensures NodeTouches(h1, m1, n, y) <==> NodeTouches(h, m, n, y)
      {
        NodeStable(h, m, h1, m1, n, m2);
      }
    }
    forall y | y in m2 && y in m && m2[y] != m[y]
      ensures exists t' :: t' in weak[..i + 1] && t' in h && Touches(h, m, h[t'], t' in vw, y)
    {
      if m1[y] == m[y] {
        assert Touches(h, m, h[t], t in vw, y);
      }
    }
  }

  lemma EdgeUncleared(h: Heap, m: map<Id, Colour>, weak: seq<Id>, valueweak: set<Id>, h': Heap, x: Id, y: Id)
    requires WeakCleared(h, m, weak, valueweak, h')
    requires x !in weak
    ensures Edge(h', x, y) <==> Edge(h, x, y)
  {
  }

  lemma ClearedStable(h: Heap, m: map<Id, Colour>, h1: Heap, m1: map<Id, Colour>, items: bool, was: Object, now: Object)
    requires was.Table? && now.Table?
    requires StringMarks(h, m, m1) && h1.Keys == h.Keys
    requires forall x :: x in h ==> (h1[x].Str? <==> h[x].Str?)
    requires TableCleared(h1, m1, items, was, now)
    ensures TableCleared(h, m, items, was, now)
  {
    forall v: Value
      ensures Gone(h1, m1, v) == Gone(h, m, v)
    {
      GoneStable(h, m, h1, m1, v);
    }
  }

  /** A value that iscleared answers for: a white object that is no string. */
  predicate Gone(h: Heap, m: map<Id, Colour>, v: Value) {
    v.Ref? && v.id in h && !h[v.id].Str? && v.id in m && IsWhite(m[v.id])
  }

  /** Between the two mark maps, some white strings of `h` became gray. */
  ghost predicate StringMarks(h: Heap, was: map<Id, Colour>, now: map<Id, Colour>) {
    true <==> (
      && now.Keys == was.Keys
      && forall x :: x in was ==> now[x] == was[x] || (IsWhite(was[x]) && now[x] == Gray && x in h && h[x].Str?)
    )
  }

  ghost predicate ItemsCleared(h: Heap, m: map<Id, Colour>, was: seq<Value>, now: seq<Value>) {
    |now| == |was| && forall i :: 0 <= i < |was| ==> now[i] == if Gone(h, m, was[i]) then Nil else was[i]
  }

  function ClearNode(h: Heap, m: map<Id, Colour>, n: Node): Node {
    if n.val != Nil && (Gone(h, m, n.key) || Gone(h, m, n.val)) then Node(n.key, Nil) else n
  }

  ghost predicate NodesCleared(h: Heap, m: map<Id, Colour>, was: seq<Node>, now: seq<Node>) {
    |now| == |was| && forall i :: 0 <= i < |was| ==> now[i] == ClearNode(h, m, was[i])
  }

  /** Exactly the entries with a collected key or value are gone. */
  ghost predicate TableCleared(h: Heap, m: map<Id, Colour>, items: bool, was: Object, now: Object)
    requires was.Table? && now.Table?
  {
    && now.meta == was.meta
    && (if items then ItemsCleared(h, m, was.items, now.items) else now.items == was.items)
    && NodesCleared(h, m, was.node, now.node)
  }

  /** Clearing this entry marks the string `y`: each key is looked at, and each
      value whose key stays. */
  ghost predicate NodeTouches(h: Heap, m: map<Id, Colour>, n: Node, y: Id) {
    n.val != Nil && (n.key == Ref(y) || (!Gone(h, m, n.key) && n.val == Ref(y)))
  }

  ghost predicate NodesTouch(h: Heap, m: map<Id, Colour>, node: seq<Node>, y: Id) {
    exists n :: n in node && NodeTouches(h, m, n, y)
  }

  ghost predicate Touches(h: Heap, m: map<Id, Colour>, o: Object, items: bool, y: Id) {
    o.Table? && ((items && Ref(y) in o.items) || NodesTouch(h, m, o.node, y))
  }

  /** After an entry was looked at, the strings it touches are marked, and so is
      what the entry still refers to. */
  ghost predicate NodeDone(h: Heap, m: map<Id, Colour>, n: Node, now: map<Id, Colour>) {
    && (forall y :: y in h && h[y].Str? && NodeTouches(h, m, n, y) ==> y in now && !IsWhite(now[y]))
    && (ClearNode(h, m, n).val != Nil ==>
      && (n.key.Ref? ==> n.key.id in now && !IsWhite(now[n.key.id]))
      && (n.val.Ref? ==> n.val.id in now && !IsWhite(now[n.val.id])))
  }

  /** Exactly the strings touched by the table were marked. */
  ghost predicate TouchExact(h: Heap, m: map<Id, Colour>, o: Object, items: bool, now: map<Id, Colour>) {
    && (forall y :: y in now && y in m && now[y] != m[y] ==> Touches(h, m, o, items, y))
    && (forall y :: y in h && h[y].Str? && Touches(h, m, o, items, y) ==> y in now && !IsWhite(now[y]))
  }

  ghost predicate AllTouchExact(h: Heap, m: map<Id, Colour>, tables: seq<Id>, vw: set<Id>, now: map<Id, Colour>) {
    true <==> (
      && (forall y :: y in now && y in m && now[y] != m[y] ==>
        exists t :: t in tables && t in h && Touches(h, m, h[t], t in vw, y))
      && (forall t, y :: t in tables && t in h && y in h && h[y].Str? && Touches(h, m, h[t], t in vw, y) ==>
        y in now && !IsWhite(now[y]))
    )
  }

  /** The weak list at the end of marking: tables with the mode they have now;
      any other marked table has all it refers to marked. */
  ghost predicate FreshWeak(h: Heap, name: Id, m: map<Id, Colour>, weak: seq<Id>, valueweak: set<Id>) {
    true <==> (
      && (forall t :: t in weak ==> t in h && t in m && !IsWhite(m[t]) && h[t].Table?)
      && (forall t :: t in weak && t in h ==> (t in valueweak <==> HasMode(h, name, h[t], 'v')))
      && (forall t, y :: t in m && !IsWhite(m[t]) && t in h && h[t].Table? && t !in weak && Edge(h, t, y) ==>
        y in m && !IsWhite(m[y]))
    )
  }

  lemma MarksSelf(h: Heap, m: map<Id, Colour>)
    ensures StringMarks(h, m, m)
  {
  }

  lemma StringMarksChain(h: Heap, m: map<Id, Colour>, h1: Heap, m1: map<Id, Colour>, m2: map<Id, Colour>)
    requires StringMarks(h, m, m1) && StringMarks(h1, m1, m2)
    requires forall x :: x in h1 && h1[x].Str? ==> x in h && h[x].Str?
    ensures StringMarks(h, m, m2)
  {
  }

  lemma NodeStable(h: Heap, m: map<Id, Colour>, h1: Heap, m1: map<Id, Colour>, n: Node, now: map<Id, Colour>)
    requires StringMarks(h, m, m1) && h1.Keys == h.Keys
    requires forall x :: x in h ==> (h1[x].Str? <==> h[x].Str?)
    ensures ClearNode(h1, m1, n) == ClearNode(h, m, n)
    ensures forall y :: NodeTouches(h1, m1, n, y) <==> NodeTouches(h, m, n, y)
    ensures NodeDone(h1, m1, n, now) ==> NodeDone(h, m, n, now)
  {
    GoneStable(h, m, h1, m1, n.key);
    GoneStable(h, m, h1, m1, n.val);
  }

  lemma DoneStays(h: Heap, m: map<Id, Colour>, h1: Heap, m1: map<Id, Colour>, node: seq<Node>, i: nat, now: map<Id,
      Colour>)
    requires StringMarks(h1, m1, now)
    requires forall j :: i <= j < |node| ==> NodeDone(h, m, node[j], m1)
    ensures forall j :: i <= j < |node| ==> NodeDone(h, m, node[j], now)
  {
  }

  lemma TableDone(h: Heap, m: map<Id, Colour>, h1: Heap, m1: map<Id, Colour>, h2: Heap, m2: map<Id, Colour>, t: Id,
      items: bool)
    requires t in h && h[t].Table? && t in h1 && h1[t].Table? && t in h2 && h2[t].Table?
    requires m.Keys == h.Keys && m1.Keys == m.Keys
    requires h1 == h[t := h[t].(items := h1[t].items)] && h2 == h1[t := h1[t].(node := h2[t].node)]
    requires StringMarks(h, m, m1) && StringMarks(h1, m1, m2)
    requires if items then ItemsCleared(h, m, h[t].items, h1[t].items) else h1[t].items == h[t].items
    requires forall y :: y in m1 && m1[y] != m[y] ==> items && Ref(y) in h[t].items
    requires forall v :: v in h1[t].items && v.Ref? ==> v.id in m1 && !IsWhite(m1[v.id])
    requires NodesCleared(h1, m1, h1[t].node, h2[t].node)
    requires forall y :: y in m2 && m2[y] != m1[y] ==> NodesTouch(h1, m1, h1[t].node, y)
    requires forall n :: n in h1[t].node ==> NodeDone(h1, m1, n, m2)
    requires h[t].meta.Some? ==> h[t].meta.value in m && !IsWhite(m[h[t].meta.value])
    ensures h2 == h[t := h2[t]]
    ensures TableCleared(h, m, items, h[t], h2[t])
    ensures StringMarks(h, m, m2)
    ensures TouchExact(h, m, h[t], items, m2)
    ensures forall y :: Edge(h2, t, y) ==> y in m2 && !IsWhite(m2[y])
  {
    forall n: Node
      ensures ClearNode(h1, m1, n) == ClearNode(h, m, n)
      ensures forall y :: NodeTouches(h1, m1, n, y) <==> NodeTouches(h, m, n, y)
      ensures NodeDone(h1, m1, n, m2) ==> NodeDone(h, m, n, m2)
    {
      NodeStable(h, m, h1, m1, n, m2);
    }
    TableTouches(h, m, h1, m1, m2, t, items);
    TableEdgesDone(h, m, m2, h[t].node, h2[t].node);
    forall y | Edge(h2, t, y)
      ensures y in m2 && !IsWhite(m2[y])
    {
      assert Ref(y) in h2[t].items ==> Ref(y) in h1[t].items;
    }
  }

  lemma TableTouches(h: Heap, m: map<Id, Colour>, h1: Heap, m1: map<Id, Colour>, m2: map<Id, Colour>, t: Id,
      items: bool)
    requires t in h && h[t].Table? && t in h1 && h1[t].Table? && h1[t].node == h[t].node
    requires m.Keys == h.Keys && StringMarks(h, m, m1) && StringMarks(h1, m1, m2)
    requires if items then ItemsCleared(h, m, h[t].items, h1[t].items) else h1[t].items == h[t].items
    requires forall y :: y in m1 && m1[y] != m[y] ==> items && Ref(y) in h[t].items
    requires forall v :: v in h1[t].items && v.Ref? ==> v.id in m1 && !IsWhite(m1[v.id])
    requires forall y :: y in m2 && m2[y] != m1[y] ==> NodesTouch(h1, m1, h1[t].node, y)
    requires forall n: Node, y :: NodeTouches(h1, m1, n, y) <==> NodeTouches(h, m, n, y)
    requires forall n :: n in h[t].node ==> NodeDone(h, m, n, m2)
    ensures TouchExact(h, m, h[t], items, m2)
  {
    forall y | y in m2 && y in m && m2[y] != m[y]
      ensures Touches(h, m, h[t], items, y)
    {
      if m1[y] == m[y] {
        var n :| n in h1[t].node && NodeTouches(h1, m1, n, y);
        assert NodeTouches(h, m, n, y);
      }
    }
    forall y | y in h && h[y].Str? && items && Ref(y) in h[t].items
      ensures y in m2 && !IsWhite(m2[y])
    {
      var i :| 0 <= i < |h[t].items| && h[t].items[i] == Ref(y);
      assert h1[t].items[i] == Ref(y);
    }
  }

  lemma TableEdgesDone(h: Heap, m: map<Id, Colour>, m2: map<Id, Colour>, was: seq<Node>, now: seq<Node>)
    requires NodesCleared(h, m, was, now)
    requires forall n :: n in was ==> NodeDone(h, m, n, m2)
    ensures forall y :: NodeEdge(now, true, true, y) ==> y in m2 && !IsWhite(m2[y])
  {
    forall y | NodeEdge(now, true, true, y)
      ensures y in m2 && !IsWhite(m2[y])
    {
      var n :| n in now && n.val != Nil && (n.key == Ref(y) || n.val == Ref(y));
      var i :| 0 <= i < |now| && now[i] == n;
      assert was[i] in was && n == ClearNode(h, m, was[i]);
    }
  }

  lemma GoneStable(h: Heap, m: map<Id, Colour>, h': Heap, m': map<Id, Colour>, v: Value)
    requires StringMarks(h, m, m') && h'.Keys == h.Keys
    requires forall x :: x in h ==> (h'[x].Str? <==> h[x].Str?)
    ensures Gone(h', m', v) == Gone(h, m, v)
  {
  }

  lemma PartsDisjoint(a: seq<Id>, b: seq<Id>, c: seq<Id>)
    requires Distinct(a + b + c)
    ensures forall x :: x in b ==> x !in c
  {
    var all := a + b + c;
    assert forall i :: 0 <= i < |b| ==> b[i] == all[|a| + i];
    assert forall j :: 0 <= j < |c| ==> c[j] == all[|a| + |b| + j];
  }

  lemma KeptInSet(a: seq<Id>, b: seq<Id>)
    requires forall x :: x in a ==> x in b
    ensures SetOf(a) <= SetOf(b)
  {
    forall x | x in SetOf(a)
      ensures x in SetOf(b)
    {
      assert x in a;
    }
  }

  lemma SwapDistinct(a: seq<Id>, b: seq<Id>)
    requires Distinct(a + b)
    ensures Distinct(b + a)
  {
    forall i, j | 0 <= i < j < |b + a|
      ensures (b + a)[i] != (b + a)[j]
    {
      var i' := if i < |b| then i + |a| else i - |b|;
      var j' := if j < |b| then j + |a| else j - |b|;
      assert (a + b)[i'] == (b + a)[i] && (a + b)[j'] == (b + a)[j];
    }
  }

  lemma StringsExist(h: Heap, strt: seq<seq<Id>>, nuse: nat, hash: string -> nat, rootgc: seq<Id>, uvhead: seq<Id>)
    requires ListsOk(h, strt, nuse, hash, rootgc, uvhead)
    ensures |strt| > 0
  {
  }

  lemma MarksKept(h: Heap, h': Heap, m: map<Id, Colour>, m': map<Id, Colour>, cw: Colour)
    requires StringMarks(h, m, m') && TablesOnly(h, h') && m.Keys == h.Keys && IsWhite(cw)
    requires forall x :: x in h && m[x] == Black ==> MayBeBlack(h[x])
    requires forall x :: x in h ==> m[x] != Other(cw)
    ensures m'.Keys == h'.Keys
    ensures forall x :: x in h' && m'[x] == Black ==> MayBeBlack(h'[x])
    ensures forall x :: x in h' ==> m'[x] != Other(cw)
    ensures forall x :: x in m && !IsWhite(m[x]) ==> x in m' && !IsWhite(m'[x])
  {
  }

  lemma StringsKept(h: Heap, h': Heap, strt: seq<seq<Id>>, nuse: nat, hash: string -> nat)
    requires StringsListed(h, strt, nuse, hash) && TablesOnly(h, h')
    ensures StringsListed(h', strt, nuse, hash)
  {
    forall x
      ensures x in Strings(h') <==> x in Strings(h)
    {
    }
    assert Strings(h') == Strings(h);
  }

  lemma RootsKept(h: Heap, h': Heap, rootgc: seq<Id>)
    requires RootsListed(h, rootgc) && TablesOnly(h, h')
    ensures RootsListed(h', rootgc)
  {
  }

  lemma UpvalsKept(h: Heap, h': Heap, uvhead: seq<Id>)
    requires UpvalsListed(h, uvhead) && TablesOnly(h, h')
    ensures UpvalsListed(h', uvhead)
  {
    forall t | t in h' && h'[t].Thread?
      ensures OpenList(h', t)
    {
      assert OpenList(h, t);
    }
  }

  lemma RootedKept(h: Heap, h': Heap, fixed: set<Id>, mainthread: Id, running: Id, modeName: Id)
    requires Rooted(h, fixed, mainthread, running, modeName) && TablesOnly(h, h')
    ensures Rooted(h', fixed, mainthread, running, modeName)
  {
  }

  lemma NamesKept(h: Heap, h': Heap)
    requires TablesOnly(h, h')
    requires forall x :: x in h ==> NamesAreStrings(h, x)
    ensures forall x :: x in h' ==> NamesAreStrings(h', x)
  {
    forall x | x in h'
      ensures NamesAreStrings(h', x)
    {
      assert NamesAreStrings(h, x);
      if h'[x].Proto? {
        assert h'[x] == h[x];
        if h[x].source.Some? {
          var y := h[x].source.value;
          assert y in h && h[y].Str?;
          assert h'[y] == h[y];
        }
      }
    }
  }

  lemma ListsKept(h: Heap, h': Heap, strt: seq<seq<Id>>, nuse: nat, hash: string -> nat, rootgc: seq<Id>,
      uvhead: seq<Id>)
    requires ListsOk(h, strt, nuse, hash, rootgc, uvhead) && TablesOnly(h, h')
    ensures ListsOk(h', strt, nuse, hash, rootgc, uvhead)
  {
    hide StringsListed, RootsListed, UpvalsListed, TablesOnly;
    StringsKept(h, h', strt, nuse, hash);
    RootsKept(h, h', rootgc);
    UpvalsKept(h, h', uvhead);
  }

  /** What the flip of the whites relies on in each object. */
  ghost predicate Flippable(h: Heap, m: map<Id, Colour>, cw: Colour) {
    true <==> (
      && m.Keys == h.Keys && IsWhite(cw)
      && (forall x :: x in h && m[x] == Black ==> MayBeBlack(h[x]))
      && (forall x :: x in h ==> m[x] != Other(cw))
      && (forall x :: x in h ==> NamesAreStrings(h, x))
    )
  }

  lemma ClearedFlippable(h: Heap, m: map<Id, Colour>, h': Heap, m': map<Id, Colour>, cw: Colour)
    requires Flippable(h, m, cw) && TablesOnly(h, h') && StringMarks(h, m, m')
    ensures Flippable(h', m', cw)
  {
    NamesKept(h, h');
    MarksKept(h, h', m, m', cw);
  }

  lemma RootsStayMarked(h: Heap, m: map<Id, Colour>, m': map<Id, Colour>, roots: set<Id>)
    requires StringMarks(h, m, m')
    requires forall x :: x in roots ==> x in m && !IsWhite(m[x])
    ensures forall x :: x in roots ==> x in m' && !IsWhite(m'[x])
  {
  }

  /** What clearing the weak tables leaves as it was. */
  lemma ClearedKeeps(h: Heap, m: map<Id, Colour>, weak: seq<Id>, valueweak: set<Id>, h': Heap, m': map<Id, Colour>,
      cw: Colour,
                     strt: seq<seq<Id>>, nuse: nat, hash: string -> nat, rootgc: seq<Id>, uvhead: seq<Id>,
                     fixed: set<Id>, mainthread: Id, running: Id, modeName: Id)
    requires WeakCleared(h, m, weak, valueweak, h') && StringMarks(h, m, m')
    requires ListsOk(h, strt, nuse, hash, rootgc, uvhead) && Rooted(h, fixed, mainthread, running, modeName)
    requires Flippable(h, m, cw)
    ensures ListsOk(h', strt, nuse, hash, rootgc, uvhead) && Rooted(h', fixed, mainthread, running, modeName)
    ensures Flippable(h', m', cw)
  {
    hide *;
    ClearedTablesOnly(h, m, weak, valueweak, h');
    ListsKept(h, h', strt, nuse, hash, rootgc, uvhead);
    RootedKept(h, h', fixed, mainthread, running, modeName);
    ClearedFlippable(h, m, h', m', cw);
  }

  // ----- freeing and whitening one object -----

  function RemoveAt<T>(s: seq<T>, i: nat): seq<T>
    requires i < |s|
  {
    s[..i] + s[i + 1..]
  }

  lemma RemoveAtFacts(s: seq<Id>, i: nat)
    requires i < |s| && Distinct(s)
    ensures Distinct(RemoveAt(s, i))
    ensures forall x :: x in RemoveAt(s, i) <==> x in s && x != s[i]
  {
    var r := RemoveAt(s, i);
    assert forall k :: 0 <= k < |r| ==> r[k] == s[if k < i then k else k + 1];
    forall x | x in s && x != s[i]
      ensures x in r
    {
      var k :| 0 <= k < |s| && s[k] == x;
      assert r[if k < i then k else k - 1] == x;
    }
  }

  ghost predicate HeapOk(h: Heap, m: map<Id, Colour>, fixed: set<Id>, cw: Colour) {
    true <==> (
      Consistent(h, m, fixed, cw) && AliveClosed(h, m, fixed, cw)
    )
  }

  /** Freeing a dead object hurts nothing that is alive. */
  lemma FreeFacts(h: Heap, m: map<Id, Colour>, fixed: set<Id>, cw: Colour, x: Id)
    requires HeapOk(h, m, fixed, cw)
    requires x in h && !NotDead(h, m, fixed, cw, x)
    ensures HeapOk(h - {x}, m - {x}, fixed, cw)
    ensures forall y :: NotDead(h - {x}, m - {x}, fixed, cw, y) <==> NotDead(h, m, fixed, cw, y)
  {
    var h', m' := h - {x}, m - {x};
    forall y, z | NotDead(h', m', fixed, cw, y) && Edge(h', y, z)
      ensures NotDead(h', m', fixed, cw, z)
    {
      assert NotDead(h, m, fixed, cw, y) && Edge(h, y, z);
    }
    forall y | NotDead(h', m', fixed, cw, y)
      ensures NamesAreStrings(h', y)
    {
      assert NotDead(h, m, fixed, cw, y) && NamesAreStrings(h, y);
      forall z | h[y].Proto? && (h[y].source == Some(z) || z in h[y].upvalueNames || z in h[y].localNames)
        ensures z in h' && h'[z] == h[z]
      {
        assert Edge(h, y, z);
      }
    }
  }

  lemma WhitenFacts(h: Heap, m: map<Id, Colour>, fixed: set<Id>, cw: Colour, x: Id)
    requires HeapOk(h, m, fixed, cw)
    requires NotDead(h, m, fixed, cw, x)
    ensures HeapOk(h, m[x := cw], fixed, cw)
    ensures forall y :: NotDead(h, m[x := cw], fixed, cw, y) <==> NotDead(h, m, fixed, cw, y)
  {
    var m' := m[x := cw];
    assert forall y :: NotDead(h, m', fixed, cw, y) <==> NotDead(h, m, fixed, cw, y);
    forall y, z | NotDead(h, m', fixed, cw, y) && Edge(h, y, z)
      ensures NotDead(h, m', fixed, cw, z)
    {
      assert NotDead(h, m, fixed, cw, y);
    }
  }

  lemma FreeStringLists(h: Heap, strt: seq<seq<Id>>, nuse: nat, hash: string -> nat, b: nat, i: nat)
    requires StringsListed(h, strt, nuse, hash)
    requires b < |strt| && i < |strt[b]|
    ensures nuse > 0 && StringsListed(h - {strt[b][i]}, strt[b := RemoveAt(strt[b], i)], nuse - 1, hash)
  {
    var x := strt[b][i];
    assert x in strt[b];
    assert x in h && h[x].Str?;
    RemoveAtFacts(strt[b], i);
    assert x in Strings(h) && Strings(h - {x}) == Strings(h) - {x};
    var strt' := strt[b := RemoveAt(strt[b], i)];
    forall c, y | 0 <= c < |strt'| && y in strt'[c]
      ensures y in h - {x} && h[y].Str? && hash(h[y].text) % |strt'| == c
    {
      assert y in strt[c];
    }
  }

  /** Removing a string touches no other list. */
  lemma FreeStringOthers(h: Heap, rootgc: seq<Id>, uvhead: seq<Id>, x: Id)
    requires RootsListed(h, rootgc) && UpvalsListed(h, uvhead)
    requires x in h && h[x].Str?
    ensures RootsListed(h - {x}, rootgc) && UpvalsListed(h - {x}, uvhead)
  {
    var h' := h - {x};
    forall t | t in h' && h'[t].Thread?
      ensures OpenList(h', t)
    {
      assert OpenList(h, t);
    }
  }

  lemma FreeRooted(h: Heap, m: map<Id, Colour>, fixed: set<Id>, cw: Colour, mainthread: Id, running: Id, modeName: Id,
      x: Id)
    requires Rooted(h, fixed, mainthread, running, modeName)
    requires !NotDead(h, m, fixed, cw, x) && m.Keys == h.Keys
    requires NotDead(h, m, fixed, cw, mainthread) && NotDead(h, m, fixed, cw, running)
    ensures Rooted(h - {x}, fixed, mainthread, running, modeName)
  {
  }

  // ----- what a sweep does to the rest -----

  /** The value an upvalue stands for, wherever it lives. */
  function ValueOf(h: Heap, u: Id): Value
    requires u in h && h[u].Upval?
  {
    match h[u].place
    case Closed(v) => v
    case Open(th, slot) =>
      if th in h && h[th].Thread? && slot < |h[th].stack| then h[th].stack[slot] else Nil
  }

  /** The program sees the same object: only which upvalues of a thread are
      open, and where an upvalue keeps its value, may differ. */
  ghost predicate SamePayload(h: Heap, h': Heap, x: Id)
    requires x in h && x in h'
  {
    if h[x].Thread? then h'[x].Thread? && h'[x].globals == h[x].globals && h'[x].stack == h[x].stack
    else if h[x].Upval? then h'[x].Upval? && ValueOf(h', x) == ValueOf(h, x)
    else h'[x] == h[x]
  }

  /** One heap comes from another by sweeping: alive objects stay as they are,
      dead ones stay dead or go. */
  ghost predicate Swept(h: Heap, m: map<Id, Colour>, h': Heap, m': map<Id, Colour>, fixed: set<Id>, cw: Colour) {
    true <==> (
      && h'.Keys <= h.Keys && m'.Keys == h'.Keys
      && (forall x :: x in h' ==> x in m && (m'[x] == m[x] || m'[x] == cw))
      && (forall x :: NotDead(h, m, fixed, cw, x) ==> x in h')
      && (forall x :: x in h' ==> SamePayload(h, h', x) && (IsOpen(h'[x]) ==> h'[x] == h[x]))
      && (forall x :: NotDead(h', m', fixed, cw, x) ==> NotDead(h, m, fixed, cw, x))
    )
  }

  lemma SweptSelf(h: Heap, m: map<Id, Colour>, fixed: set<Id>, cw: Colour)
    requires m.Keys == h.Keys
    ensures Swept(h, m, h, m, fixed, cw)
  {
  }

  lemma SweptChain(h: Heap, m: map<Id, Colour>, h1: Heap, m1: map<Id, Colour>, h2: Heap, m2: map<Id, Colour>,
                   fixed: set<Id>, cw: Colour)
    requires IsWhite(cw)
    requires Swept(h, m, h1, m1, fixed, cw) && Swept(h1, m1, h2, m2, fixed, cw)
    ensures Swept(h, m, h2, m2, fixed, cw)
  {
    forall x | NotDead(h, m, fixed, cw, x)
      ensures x in h2
    {
      assert NotDead(h1, m1, fixed, cw, x);
    }
    forall x | x in h2
      ensures SamePayload(h, h2, x)
    {
      assert SamePayload(h, h1, x) && SamePayload(h1, h2, x);
    }
  }

  lemma FreeSwept(h: Heap, m: map<Id, Colour>, fixed: set<Id>, cw: Colour, x: Id)
    requires x in h && !NotDead(h, m, fixed, cw, x) && m.Keys == h.Keys
    requires HeapOk(h, m, fixed, cw)
    requires !h[x].Thread? || forall u :: u in h && IsOpen(h[u]) ==> h[u].place.thread != x
    ensures Swept(h, m, h - {x}, m - {x}, fixed, cw)
  {
  }

  lemma WhitenSwept(h: Heap, m: map<Id, Colour>, fixed: set<Id>, cw: Colour, x: Id)
    requires NotDead(h, m, fixed, cw, x) && m.Keys == h.Keys
    ensures Swept(h, m, h, m[x := cw], fixed, cw)
  {
  }

  /** Changing the list of open upvalues changes no edge. */
  lemma RelistFacts(h: Heap, m: map<Id, Colour>, fixed: set<Id>, cw: Colour, t: Id, l: seq<Id>)
    requires HeapOk(h, m, fixed, cw) && t in h && h[t].Thread?
    ensures HeapOk(h[t := h[t].(openupval := l)], m, fixed, cw)
    ensures forall y :: NotDead(h[t := h[t].(openupval := l)], m, fixed, cw, y) <==> NotDead(h, m, fixed, cw, y)
    ensures Swept(h, m, h[t := h[t].(openupval := l)], m, fixed, cw)
  {
    var h' := h[t := h[t].(openupval := l)];
    forall y, z | NotDead(h', m, fixed, cw, y) && Edge(h', y, z)
      ensures NotDead(h', m, fixed, cw, z)
    {
      assert NotDead(h, m, fixed, cw, y) && Edge(h, y, z);
      assert NotDead(h, m, fixed, cw, z);
    }
    forall y | NotDead(h', m, fixed, cw, y)
      ensures NamesAreStrings(h', y)
    {
      assert NotDead(h, m, fixed, cw, y) && NamesAreStrings(h, y);
    }
  }

  /** An upvalue leaves the open lists; it is freed, or stays as a closed one. */
  lemma UnlistUpval(h: Heap, uvhead: seq<Id>, t: Id, i: nat, k: nat, h': Heap)
    requires UpvalsListed(h, uvhead)
    requires t in h && h[t].Thread? && i < |h[t].openupval|
    requires k < |uvhead| && uvhead[k] == h[t].openupval[i]
    requires t in h' && h'[t] == h[t].(openupval := RemoveAt(h[t].openupval, i))
    requires uvhead[k] in h' ==> h'[uvhead[k]].Upval? && !IsOpen(h'[uvhead[k]])
    requires forall w :: w in h' ==> w in h && (w == uvhead[k] || w == t || h'[w] == h[w])
    requires forall w :: w in h && w != uvhead[k] ==> w in h'
    ensures UpvalsListed(h', RemoveAt(uvhead, k))
  {
    var l, u := h[t].openupval, uvhead[k];
    OpenListDistinct(h, t);
    assert u in l;
    RemoveAtFacts(l, i);
    RemoveAtFacts(uvhead, k);
    forall t' | t' in h' && h'[t'].Thread?
      ensures OpenList(h', t')
    {
      assert OpenList(h, t');
      if t' == t {
        ShorterOpenList(h, t, i, h');
      } else {
        assert u !in h[t'].openupval;
      }
    }
    forall w | w in h' && IsOpen(h'[w])
      ensures var t' := h'[w].place.thread;
        t' in h' && h'[t'].Thread? && h'[w].place.slot < |h'[t'].stack| && w in h'[t'].openupval
    {
      assert w in h && IsOpen(h[w]) && w != u;
    }
  }

  lemma OpenListDistinct(h: Heap, t: Id)
    requires t in h && h[t].Thread? && OpenList(h, t)
    ensures Distinct(h[t].openupval)
  {
  }

  lemma ShorterOpenList(h: Heap, t: Id, i: nat, h': Heap)
    requires t in h && h[t].Thread? && OpenList(h, t) && i < |h[t].openupval|
    requires t in h' && h'[t] == h[t].(openupval := RemoveAt(h[t].openupval, i))
    requires forall u :: u in h[t].openupval && u != h[t].openupval[i] ==> u in h' && h'[u] == h[u]
    ensures OpenList(h', t)
  {
    OpenListDistinct(h, t);
    var l := h[t].openupval;
    var r := RemoveAt(l, i);
    RemoveAtFacts(l, i);
    assert forall k :: 0 <= k < |r| ==> r[k] == l[if k < i then k else k + 1];
  }

  /** A closed upvalue joins the list of all objects. */
  lemma CloseRoots(h: Heap, rootgc: seq<Id>, t: Id, u: Id, v: Value, l: seq<Id>)
    requires RootsListed(h, rootgc)
    requires t in h && h[t].Thread? && u in h && IsOpen(h[u])
    ensures RootsListed(h[t := h[t].(openupval := l)][u := Upval(Closed(v))], [u] + rootgc)
  {
    assert u !in rootgc;
  }

  /** Closing an upvalue moves its value and changes no edge. */
  lemma CloseFacts(h: Heap, m: map<Id, Colour>, fixed: set<Id>, cw: Colour, t: Id, u: Id, l: seq<Id>)
    requires HeapOk(h, m, fixed, cw)
    requires t in h && h[t].Thread? && u in h && IsOpen(h[u]) && h[u].place.thread == t
    ensures HeapOk(h[t := h[t].(openupval := l)][u := Upval(Closed(ValueOf(h, u)))], m, fixed, cw)
    ensures Swept(h, m, h[t := h[t].(openupval := l)][u := Upval(Closed(ValueOf(h, u)))], m, fixed, cw)
  {
    var h1 := h[t := h[t].(openupval := l)];
    RelistFacts(h, m, fixed, cw, t, l);
    var h' := h1[u := Upval(Closed(ValueOf(h, u)))];
    forall y, z | NotDead(h', m, fixed, cw, y) && Edge(h', y, z)
      ensures NotDead(h', m, fixed, cw, z)
    {
      assert NotDead(h1, m, fixed, cw, y) && Edge(h1, y, z);
      assert NotDead(h1, m, fixed, cw, z);
    }
    forall y | NotDead(h', m, fixed, cw, y)
      ensures NamesAreStrings(h', y)
    {
      assert NotDead(h1, m, fixed, cw, y) && NamesAreStrings(h1, y);
    }
  }

  lemma NoneCurrent(m: map<Id, Colour>, cw: Colour, s: seq<Id>)
    ensures AllCurrent(m, cw, SetOf(s[..0]))
  {
  }

  lemma CurrentGrows(m: map<Id, Colour>, cw: Colour, s: seq<Id>, i: nat)
    requires i < |s| && AllCurrent(m, cw, SetOf(s[..i]))
    ensures AllCurrent(m[s[i] := cw], cw, SetOf(s[..i + 1]))
  {
    assert s[..i + 1] == s[..i] + [s[i]];
  }

  lemma CurrentKept(m: map<Id, Colour>, cw: Colour, s: seq<Id>, i: nat)
    requires i < |s| && Distinct(s) && AllCurrent(m, cw, SetOf(s[..i]))
    ensures AllCurrent(m - {s[i]}, cw, SetOf(RemoveAt(s, i)[..i]))
  {
    assert RemoveAt(s, i)[..i] == s[..i];
  }

  /** The heap after thread `t` drops entry `i` of its open list and `u` is freed. */
  function DropOpen(h: Heap, t: Id, i: nat, u: Id): Heap
    requires t in h && h[t].Thread? && i < |h[t].openupval|
  {
    h[t := h[t].(openupval := RemoveAt(h[t].openupval, i))] - {u}
  }

  /** The heap after thread `t` closes the first of its open upvalues. */
  function CloseFirst(h: Heap, t: Id): Heap
    requires t in h && h[t].Thread? && h[t].openupval != []
    requires h[t].openupval[0] in h && h[h[t].openupval[0]].Upval?
  {
    var u := h[t].openupval[0];
    h[t := h[t].(openupval := RemoveAt(h[t].openupval, 0))][u := Upval(Closed(ValueOf(h, u)))]
  }

  lemma OtherListsKept(h: Heap, h': Heap, strt: seq<seq<Id>>, nuse: nat, hash: string -> nat)
    requires StringsListed(h, strt, nuse, hash)
    requires forall x :: x in h && h[x].Str? ==> x in h' && h'[x] == h[x]
    requires forall x :: x in h' && h'[x].Str? ==> x in h && h[x].Str?
    ensures StringsListed(h', strt, nuse, hash)
  {
    forall x
      ensures x in Strings(h') <==> x in Strings(h)
    {
    }
    assert Strings(h') == Strings(h);
  }

  lemma FreeOpenFacts(h: Heap, m: map<Id, Colour>, fixed: set<Id>, cw: Colour, t: Id, i: nat)
    requires HeapOk(h, m, fixed, cw)
    requires t in h && h[t].Thread? && i < |h[t].openupval|
    requires h[t].openupval[i] in h && IsOpen(h[h[t].openupval[i]])
    requires !NotDead(h, m, fixed, cw, h[t].openupval[i])
    ensures HeapOk(DropOpen(h, t, i, h[t].openupval[i]), m - {h[t].openupval[i]}, fixed, cw)
    ensures Swept(h, m, DropOpen(h, t, i, h[t].openupval[i]), m - {h[t].openupval[i]}, fixed, cw)
  {
    var u := h[t].openupval[i];
    var h1 := h[t := h[t].(openupval := RemoveAt(h[t].openupval, i))];
    RelistFacts(h, m, fixed, cw, t, RemoveAt(h[t].openupval, i));
    FreeFacts(h1, m, fixed, cw, u);
    FreeSwept(h1, m, fixed, cw, u);
    SweptChain(h, m, h1, m, h1 - {u}, m - {u}, fixed, cw);
  }

  lemma FreeOpenLists(h: Heap, m: map<Id, Colour>, fixed: set<Id>, cw: Colour, t: Id, i: nat, k: nat,
                      strt: seq<seq<Id>>, nuse: nat, hash: string -> nat, rootgc: seq<Id>, uvhead: seq<Id>,
                      mainthread: Id, running: Id, modeName: Id)
    requires ListsOk(h, strt, nuse, hash, rootgc, uvhead)
    requires Rooted(h, fixed, mainthread, running, modeName)
    requires t in h && h[t].Thread? && i < |h[t].openupval|
    requires k < |uvhead| && uvhead[k] == h[t].openupval[i]
    requires m.Keys == h.Keys && !NotDead(h, m, fixed, cw, uvhead[k])
    ensures ListsOk(DropOpen(h, t, i, uvhead[k]), strt, nuse, hash, rootgc, RemoveAt(uvhead, k))
    ensures Rooted(DropOpen(h, t, i, uvhead[k]), fixed, mainthread, running, modeName)
  {
    var u := uvhead[k];
    assert u in uvhead;
    var h' := DropOpen(h, t, i, u);
    OtherListsKept(h, h', strt, nuse, hash);
    UnlistUpval(h, uvhead, t, i, k, h');
  }

  lemma CloseFirstFacts(h: Heap, m: map<Id, Colour>, fixed: set<Id>, cw: Colour, t: Id)
    requires HeapOk(h, m, fixed, cw)
    requires t in h && h[t].Thread? && h[t].openupval != []
    requires h[t].openupval[0] in h && IsOpen(h[h[t].openupval[0]]) && h[h[t].openupval[0]].place.thread == t
    ensures HeapOk(CloseFirst(h, t), m, fixed, cw)
    ensures Swept(h, m, CloseFirst(h, t), m, fixed, cw)
  {
    CloseFacts(h, m, fixed, cw, t, h[t].openupval[0], RemoveAt(h[t].openupval, 0));
  }

  lemma CloseFirstLists(h: Heap, fixed: set<Id>, t: Id, k: nat,
                        strt: seq<seq<Id>>, nuse: nat, hash: string -> nat, rootgc: seq<Id>, uvhead: seq<Id>,
                        mainthread: Id, running: Id, modeName: Id)
    requires ListsOk(h, strt, nuse, hash, rootgc, uvhead)
    requires Rooted(h, fixed, mainthread, running, modeName)
    requires t in h && h[t].Thread? && h[t].openupval != []
    requires k < |uvhead| && uvhead[k] == h[t].openupval[0]
    ensures uvhead[k] in h && IsOpen(h[uvhead[k]])
    ensures ListsOk(CloseFirst(h, t), strt, nuse, hash, [uvhead[k]] + rootgc, RemoveAt(uvhead, k))
    ensures Rooted(CloseFirst(h, t), fixed, mainthread, running, modeName)
  {
    var u := uvhead[k];
    assert u in uvhead;
    var h' := CloseFirst(h, t);
    OtherListsKept(h, h', strt, nuse, hash);
    UnlistUpval(h, uvhead, t, 0, k, h');
    CloseRoots(h, rootgc, t, u, ValueOf(h, u), RemoveAt(h[t].openupval, 0));
  }

  lemma SweptRoots(h: Heap, m: map<Id, Colour>, h': Heap, m': map<Id, Colour>, fixed: set<Id>, cw: Colour)
    requires Swept(h, m, h', m', fixed, cw) && IsWhite(cw)
    ensures forall x :: NotDead(h, m, fixed, cw, x) ==> NotDead(h', m', fixed, cw, x)
  {
  }

  lemma SweptCurrent(h: Heap, m: map<Id, Colour>, h': Heap, m': map<Id, Colour>, fixed: set<Id>, cw: Colour, s: set<Id>,
      s': set<Id>)
    requires Swept(h, m, h', m', fixed, cw)
    requires AllCurrent(m, cw, s)
    requires forall x :: x in s' ==> x in h' && x in s
    ensures AllCurrent(m', cw, s')
  {
  }

  lemma ListsTogether(h: Heap, strt: seq<seq<Id>>, nuse: nat, hash: string -> nat, rootgc: seq<Id>, uvhead: seq<Id>)
    requires StringsListed(h, strt, nuse, hash) && RootsListed(h, rootgc) && UpvalsListed(h, uvhead)
    ensures ListsOk(h, strt, nuse, hash, rootgc, uvhead)
  {
  }

  /** Freeing an object of the main list that has no open upvalues. */
  lemma FreeRootLists(h: Heap, strt: seq<seq<Id>>, nuse: nat, hash: string -> nat, rootgc: seq<Id>, uvhead: seq<Id>,
      i: nat)
    requires ListsOk(h, strt, nuse, hash, rootgc, uvhead)
    requires i < |rootgc| && rootgc[i] in h
    requires h[rootgc[i]].Thread? ==> h[rootgc[i]].openupval == []
    ensures ListsOk(h - {rootgc[i]}, strt, nuse, hash, RemoveAt(rootgc, i), uvhead)
    ensures h[rootgc[i]].Thread? ==> forall u :: u in h && IsOpen(h[u]) ==> h[u].place.thread != rootgc[i]
  {
    var x := rootgc[i];
    assert x in rootgc;
    RemoveAtFacts(rootgc, i);
    OtherListsKept(h, h - {x}, strt, nuse, hash);
    forall t | t in h - {x} && h[t].Thread?
      ensures OpenList(h - {x}, t)
    {
      assert OpenList(h, t);
    }
  }

  /** What is known of the main list up to the sweep position. */
  ghost predicate SweptPrefix(h: Heap, m: map<Id, Colour>, cw: Colour, prefix: seq<Id>) {
    true <==> (
      && AllCurrent(m, cw, SetOf(prefix))
      && AllCurrent(m, cw, OpenOf(h, SetOf(prefix)))
    )
  }

  lemma PrefixSwept(h: Heap, m: map<Id, Colour>, h': Heap, m': map<Id, Colour>, fixed: set<Id>, cw: Colour,
      prefix: seq<Id>)
    requires Swept(h, m, h', m', fixed, cw) && SweptPrefix(h, m, cw, prefix)
    requires forall x :: x in prefix ==> x in h'
    ensures SweptPrefix(h', m', cw, prefix)
  {
    forall x | x in OpenOf(h', SetOf(prefix))
      ensures x in m' && m'[x] == cw
    {
      assert x in OpenOf(h, SetOf(prefix));
    }
  }

  lemma PrefixGrows(h: Heap, m: map<Id, Colour>, cw: Colour, prefix: seq<Id>, x: Id, longer: seq<Id>)
    requires SweptPrefix(h, m, cw, prefix)
    requires forall y :: y in longer ==> y == x || y in prefix
    requires x in m && m[x] == cw
    requires AllCurrent(m, cw, OpenOf(h, {x}))
    ensures SweptPrefix(h, m, cw, longer)
  {
    forall u | u in OpenOf(h, SetOf(longer))
      ensures u in m && m[u] == cw
    {
      assert u in OpenOf(h, {x}) || u in OpenOf(h, SetOf(prefix));
    }
  }

  lemma OpenOfThread(h: Heap, m: map<Id, Colour>, cw: Colour, uvhead: seq<Id>, x: Id)
    requires UpvalsListed(h, uvhead) && x in h
    requires h[x].Thread? ==> AllCurrent(m, cw, SetOf(h[x].openupval))
    ensures AllCurrent(m, cw, OpenOf(h, {x}))
  {
  }

  lemma SweptDead(h: Heap, m: map<Id, Colour>, h': Heap, m': map<Id, Colour>, fixed: set<Id>, cw: Colour, x: Id)
    requires Swept(h, m, h', m', fixed, cw) && !NotDead(h, m, fixed, cw, x)
    ensures !NotDead(h', m', fixed, cw, x)
  {
  }

  lemma PrefixStays(h: Heap, m: map<Id, Colour>, fixed: set<Id>, cw: Colour, rootgc: seq<Id>, at: nat, p: nat)
    requires RootsListed(h, rootgc) && p <= at < |rootgc|
    requires Swept(h, m, h - {rootgc[at]}, m - {rootgc[at]}, fixed, cw)
    requires SweptPrefix(h, m, cw, rootgc[..p])
    ensures SweptPrefix(h - {rootgc[at]}, m - {rootgc[at]}, cw, RemoveAt(rootgc, at)[..p])
  {
    assert RemoveAt(rootgc, at)[..p] == rootgc[..p];
    forall x | x in rootgc[..p]
      ensures x in h - {rootgc[at]}
    {
      assert x in rootgc;
    }
    PrefixSwept(h, m, h - {rootgc[at]}, m - {rootgc[at]}, fixed, cw, rootgc[..p]);
  }

  lemma RootEntry(h: Heap, m: map<Id, Colour>, rootgc: seq<Id>, i: nat)
    requires RootsListed(h, rootgc) && i < |rootgc| && m.Keys == h.Keys
    ensures rootgc[i] in h && rootgc[i] in m && !h[rootgc[i]].Str? && !IsOpen(h[rootgc[i]])
  {
    var x := rootgc[i];
    assert x in rootgc;
  }

  lemma RemoveAtLength(s: seq<Id>, i: nat)
    requires i < |s|
    ensures |RemoveAt(s, i)| == |s| - 1
  {
  }

  lemma OneMore(s: seq<Id>, i: nat)
    requires i < |s|
    ensures forall x :: x in s[..i + 1] ==> x == s[i] || x in s[..i]
  {
    assert s[..i + 1] == s[..i] + [s[i]];
  }

  lemma FreeInHeap(h: Heap, m: map<Id, Colour>, fixed: set<Id>, cw: Colour, mainthread: Id, running: Id, modeName: Id,
      x: Id)
    requires HeapOk(h, m, fixed, cw) && m.Keys == h.Keys && Rooted(h, fixed, mainthread, running, modeName)
    requires NotDead(h, m, fixed, cw, mainthread) && NotDead(h, m, fixed, cw, running)
    requires x in h && !NotDead(h, m, fixed, cw, x)
    requires !h[x].Thread? || forall u :: u in h && IsOpen(h[u]) ==> h[u].place.thread != x
    ensures HeapOk(h - {x}, m - {x}, fixed, cw)
    ensures Rooted(h - {x}, fixed, mainthread, running, modeName)
    ensures Swept(h, m, h - {x}, m - {x}, fixed, cw)
  {
    hide *;
    FreeFacts(h, m, fixed, cw, x);
    FreeSwept(h, m, fixed, cw, x);
    FreeRooted(h, m, fixed, cw, mainthread, running, modeName, x);
  }

  /** The final marks cover what is strongly reachable and stay within `s`. */
  ghost predicate MarksExact(h: Heap, name: Id, roots: set<Id>, m: map<Id, Colour>, s: set<Id>) {
    true <==> (
      && (forall x :: StrongReach(h, name, roots, x) ==> x in m && !IsWhite(m[x]))
      && (forall x :: x in m && !IsWhite(m[x]) ==> x in s)
    )
  }

  ghost predicate BucketsCurrent(m: map<Id, Colour>, cw: Colour, strt: seq<seq<Id>>, n: nat) {
    true <==> (
      n <= |strt| && forall b :: 0 <= b < n ==> AllCurrent(m, cw, SetOf(strt[b]))
    )
  }

  /** One more bucket was swept. */
  lemma BucketsSwept(h: Heap, m: map<Id, Colour>, h': Heap, m': map<Id, Colour>, fixed: set<Id>, cw: Colour,
                     strt: seq<seq<Id>>, strt': seq<seq<Id>>, n: nat, nuse: nat, hash: string -> nat)
    requires Swept(h, m, h', m', fixed, cw) && StringsListed(h', strt', nuse, hash)
    requires BucketsCurrent(m, cw, strt, n) && n < |strt| == |strt'|
    requires forall c :: 0 <= c < |strt| && c != n ==> strt'[c] == strt[c]
    requires AllCurrent(m', cw, SetOf(strt'[n]))
    ensures BucketsCurrent(m', cw, strt', n + 1)
  {
    forall b | 0 <= b < n + 1
      ensures AllCurrent(m', cw, SetOf(strt'[b]))
    {
      if b < n {
        SweptCurrent(h, m, h', m', fixed, cw, SetOf(strt[b]), SetOf(strt'[b]));
      }
    }
  }

  // ----- resizing the string table -----

  /** The strings of the buckets before `i`, and of the first `j` entries of
      bucket `i`, are the ones in the new table. */
  ghost predicate Rehashed(h: Heap, strt: seq<seq<Id>>, hash: string -> nat, newhash: seq<seq<Id>>, i: nat, j: nat) {
    && |strt| > 0 && |newhash| > 0
    && (forall b, x :: 0 <= b < |newhash| && x in newhash[b] ==>
      x in h && h[x].Str? && hash(h[x].text) % |newhash| == b && Moved(h, strt, hash, i, j, x))
    && (forall b :: 0 <= b < |newhash| ==> Distinct(newhash[b]))
    && (forall x :: x in h && h[x].Str? && Moved(h, strt, hash, i, j, x) ==> x in newhash[hash(h[x].text) % |newhash|])
  }

  ghost predicate Moved(h: Heap, strt: seq<seq<Id>>, hash: string -> nat, i: nat, j: nat, x: Id)
    requires |strt| > 0 && x in h && h[x].Str?
  {
    var b := hash(h[x].text) % |strt|;
    b < i || (b == i && j <= |strt[b]| && x in strt[b][..j])
  }

  lemma StringAt(h: Heap, strt: seq<seq<Id>>, nuse: nat, hash: string -> nat, i: nat, j: nat)
    requires StringsListed(h, strt, nuse, hash) && i < |strt| && j < |strt[i]|
    ensures strt[i][j] in h && h[strt[i][j]].Str? && hash(h[strt[i][j]].text) % |strt| == i
  {
    var x := strt[i][j];
    assert x in strt[i];
  }

  lemma RehashOne(h: Heap, strt: seq<seq<Id>>, nuse: nat, hash: string -> nat, newhash: seq<seq<Id>>, i: nat, j: nat)
    requires StringsListed(h, strt, nuse, hash) && i < |strt| && j < |strt[i]|
    requires Rehashed(h, strt, hash, newhash, i, j)
    requires strt[i][j] in h && h[strt[i][j]].Str? && hash(h[strt[i][j]].text) % |strt| == i
    ensures var b := hash(h[strt[i][j]].text) % |newhash|;
      Rehashed(h, strt, hash, newhash[b := [strt[i][j]] + newhash[b]], i, j + 1)
  {
    var p := strt[i][j];
    var b := hash(h[p].text) % |newhash|;
    MovedOne(h, strt, nuse, hash, i, j);
    assert p !in newhash[b];
  }

  lemma MovedOne(h: Heap, strt: seq<seq<Id>>, nuse: nat, hash: string -> nat, i: nat, j: nat)
    requires StringsListed(h, strt, nuse, hash) && i < |strt| && j < |strt[i]|
    requires strt[i][j] in h && h[strt[i][j]].Str? && hash(h[strt[i][j]].text) % |strt| == i
    ensures !Moved(h, strt, hash, i, j, strt[i][j])
    ensures forall x :: x in h && h[x].Str? ==>
      (Moved(h, strt, hash, i, j + 1, x) <==> Moved(h, strt, hash, i, j, x) || x == strt[i][j])
  {
    var p := strt[i][j];
    assert strt[i][..j + 1] == strt[i][..j] + [p];
    assert p !in strt[i][..j];
  }

  lemma BucketDone(h: Heap, strt: seq<seq<Id>>, nuse: nat, hash: string -> nat, newhash: seq<seq<Id>>, i: nat)
    requires StringsListed(h, strt, nuse, hash) && i < |strt|
    requires Rehashed(h, strt, hash, newhash, i, |strt[i]|)
    ensures Rehashed(h, strt, hash, newhash, i + 1, 0)
  {
    assert strt[i][..|strt[i]|] == strt[i];
    assert forall x :: x in h && h[x].Str? ==>
      (Moved(h, strt, hash, i + 1, 0, x) <==> Moved(h, strt, hash, i, |strt[i]|, x));
  }

  lemma AllRehashed(h: Heap, strt: seq<seq<Id>>, nuse: nat, hash: string -> nat, newhash: seq<seq<Id>>)
    requires StringsListed(h, strt, nuse, hash)
    requires Rehashed(h, strt, hash, newhash, |strt|, 0)
    ensures StringsListed(h, newhash, nuse, hash)
  {
    assert forall x :: x in h && h[x].Str? ==> Moved(h, strt, hash, |strt|, 0, x);
  }

  // ----- safety of a step -----

  /** What the program may notice of a step at one object: at most that entries
      of a table have become nil. */
  ghost predicate Kept(h: Heap, h': Heap, x: Id)
    requires x in h && x in h'
  {
    if h[x].Table? then
      && h'[x].Table? && h'[x].meta == h[x].meta
      && |h'[x].items| == |h[x].items| && |h'[x].node| == |h[x].node|
      && (forall i :: 0 <= i < |h[x].items| ==> h'[x].items[i] == h[x].items[i] || h'[x].items[i] == Nil)
      && (forall i :: 0 <= i < |h[x].node| ==> h'[x].node[i] == h[x].node[i] || h'[x].node[i] == Node(h[x].node[i].key, Nil))
    else SamePayload(h, h', x)
  }

  /** No object reachable before the step is freed by it. */
  ghost predicate ReachableKept(h: Heap, roots: set<Id>, h': Heap) {
    true <==> (forall x :: Reach(h, roots, x) && x in h ==> x in h' && Kept(h, h', x))
  }

  lemma SameHeapKept(h: Heap, roots: set<Id>)
    ensures ReachableKept(h, roots, h)
  {
  }

  lemma ReachIsAlive(h: Heap, m: map<Id, Colour>, fixed: set<Id>, cw: Colour, roots: set<Id>, x: Id)
    requires HeapOk(h, m, fixed, cw)
    requires forall r :: r in roots ==> NotDead(h, m, fixed, cw, r)
    requires Reach(h, roots, x)
    ensures NotDead(h, m, fixed, cw, x)
  {
    var s := set y | y in h && NotDead(h, m, fixed, cw, y);
    forall r | r in roots
      ensures r in s
    {
      assert NotDead(h, m, fixed, cw, r);
    }
    assert ClosedUnder(h, s);
  }

  lemma SweptKept(h: Heap, m: map<Id, Colour>, h': Heap, m': map<Id, Colour>, fixed: set<Id>, cw: Colour,
      roots: set<Id>)
    requires HeapOk(h, m, fixed, cw)
    requires forall r :: r in roots ==> NotDead(h, m, fixed, cw, r)
    requires Swept(h, m, h', m', fixed, cw)
    ensures ReachableKept(h, roots, h')
  {
    forall x | Reach(h, roots, x) && x in h
      ensures x in h' && Kept(h, h', x)
    {
      ReachIsAlive(h, m, fixed, cw, roots, x);
      assert SamePayload(h, h', x);
    }
  }

  lemma ClearedKept(h: Heap, m: map<Id, Colour>, weak: seq<Id>, valueweak: set<Id>, h': Heap, roots: set<Id>)
    requires WeakCleared(h, m, weak, valueweak, h')
    ensures ReachableKept(h, roots, h')
  {
    forall x | x in h
      ensures x in h' && Kept(h, h', x)
    {
      if h[x].Upval? {
        assert ValueOf(h', x) == ValueOf(h, x);
      }
    }
  }
}
