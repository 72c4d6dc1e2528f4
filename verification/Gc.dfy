/** The collector of lgc.c and the mutator that runs between its steps. */
module Gc {
  import opened GcBits
  import opened GcHeap
  import opened GcLists
  import opened GcModes
  import opened GcPrecision
  import opened GcWrites
  import opened Limits
  import opened Wrappers

  const MINSTRTABSIZE := 32
  const GCSWEEPMAX := 40

  class GlobalState {
    const modeName: Id
    const mainthread: Id
    const hash: string -> nat

    var objs: Heap
    var marked: map<Id, Colour>
    var fixed: set<Id>
    var keyweak: set<Id>
    var valueweak: set<Id>
    var currentwhite: Colour
    var gcstate: GcState
    var gray: seq<Id>
    var grayagain: seq<Id>
    var weak: seq<Id>
    var rootgc: seq<Id>
    var sweepgc: nat
    var strt: seq<seq<Id>>
    var sweepstrgc: nat
    var nuse: nat
    var uvhead: seq<Id>
    var registry: Value
    var mt: seq<Option<Id>>
    var running: Id

    // ----- what the mark phase keeps -----

    ghost predicate NonWhite(x: Id)
      reads `marked
    {
      x in marked && !IsWhite(marked[x])
    }

    /** What a marked object's edges must satisfy: all of them lead to marked
        objects when it is black, the strong ones when it is gray. */
    ghost predicate Clean(x: Id)
      requires x in marked
      reads `objs, `marked
    {
      if marked[x] == Black then forall y :: Edge(objs, x, y) ==> NonWhite(y)
      else forall y :: StrongEdge(objs, modeName, x, y) ==> NonWhite(y)
    }

    ghost predicate OnList(x: Id)
      reads `gray, `grayagain, `weak
    {
      x in gray || x in grayagain || x in weak
    }

    /** Each object has one `gclist` field, so it is on at most one list, once. */
    ghost predicate GrayLists(busy: set<Id>)
      reads `objs, `marked, `gray, `grayagain, `weak
    {
      && Distinct(gray + grayagain + weak)
      && forall x :: OnList(x) ==> x in objs && x in marked && Listable(objs[x]) && (marked[x] == Gray || x in busy)
    }

    /** The heap as it is while objects are being marked: nothing dangles. */
    ghost predicate MarkableHeap()
      reads `objs
    {
      && (forall x, y :: Edge(objs, x, y) ==> y in objs)
      && (forall x :: x in objs ==> NamesAreStrings(objs, x))
    }

    ghost predicate Colours(busy: set<Id>)
      reads `objs, `marked, `currentwhite
    {
      && marked.Keys == objs.Keys
      && IsWhite(currentwhite)
      && (forall x :: x in objs ==> marked[x] != Other(currentwhite))
      && (forall x :: x in objs && marked[x] == Black ==> MayBeBlack(objs[x]) || x in busy)
      && (forall x :: x in busy ==> NonWhite(x))
    }

    ghost predicate GrayAccounted(busy: set<Id>)
      reads `objs, `marked, `gray, `grayagain, `weak
    {
      forall x :: x in objs && x in marked && marked[x] == Gray ==>
        objs[x].Str? || IsOpen(objs[x]) || OnList(x) || x in busy
    }

    ghost predicate TriColour(e: set<Id>, busy: set<Id>)
      reads `objs, `marked, `gray
    {
      forall x :: NonWhite(x) && x !in busy && x !in gray && x !in e ==> Clean(x)
    }

    /** Tables on the weak list carry the mode they were traversed with, and
        only threads return to the second list, but for the objects in `e`. */
    ghost predicate Fresh(e: set<Id>, busy: set<Id>)
      reads `objs, `weak, `grayagain, `keyweak, `valueweak
    {
      && (forall x :: x in weak && x !in e && x !in busy ==> x in objs && objs[x].Table? && WeakBits(x))
      && (forall x :: x in weak ==> x in objs && objs[x].Table?)
      && (forall x :: x in grayagain && x !in e ==> x in objs && objs[x].Thread?)
    }

    ghost predicate WeakBits(x: Id)
      requires x in objs
      reads `objs, `keyweak, `valueweak
    {
      && (x in keyweak <==> HasMode(objs, modeName, objs[x], 'k'))
      && (x in valueweak <==> HasMode(objs, modeName, objs[x], 'v'))
    }

    /** Only objects of `s`, a set closed under strong edges, have been marked. */
    ghost predicate MarkedWithin(s: set<Id>)
      reads `objs, `marked
    {
      && StrongClosed(objs, modeName, s)
      && forall x :: NonWhite(x) ==> x in s
    }

    /** The invariant of the mark phase. `e` are the marked objects whose edges
        may have changed since their traversal, `busy` those being traversed
        right now, and `s` bounds what may be marked at all. */
    ghost predicate MarkInv(e: set<Id>, busy: set<Id>, s: set<Id>)
      reads `objs, `marked, `currentwhite, `gray, `grayagain, `weak, `keyweak, `valueweak
    {
      true <==> (
        && MarkableHeap()
        && Colours(busy)
        && GrayLists(busy)
        && GrayAccounted(busy)
        && TriColour(e, busy)
        && Fresh(e, busy)
        && MarkedWithin(s)
      )
    }

    // ----- marking -----

    lemma StrongTarget(e: set<Id>, busy: set<Id>, s: set<Id>, o: Id, y: Id)
      requires MarkInv(e, busy, s) && o in s && StrongEdge(objs, modeName, o, y)
      ensures y in objs && y in s
    {
      StrongIsEdge(objs, modeName, o, y);
    }

    /** A visited object whose edges are done leaves the busy set. */
    lemma EndVisit(o: Id, e: set<Id>, busy: set<Id>, s: set<Id>)
      requires MarkInv(e, busy + {o}, s) && o in objs && o !in busy
      requires Clean(o)
      requires marked[o] == Black ==> MayBeBlack(objs[o]) && !OnList(o)
      requires marked[o] == Gray ==> objs[o].Str? || IsOpen(objs[o]) || OnList(o)
      requires o in weak && o !in e ==> WeakBits(o)
      ensures MarkInv(e, busy, s)
    {
    }

    lemma NotListed(o: Id, e: set<Id>, busy: set<Id>, s: set<Id>)
      requires MarkInv(e, busy, s) && o in objs && !Listable(objs[o])
      ensures !OnList(o)
    {
    }

    /** Gives a visited, or just found, object a darker colour. */
    method Recolour(o: Id, c: Colour, ghost e: set<Id>, ghost busy: set<Id>, ghost s: set<Id>)
      requires MarkInv(e, busy, s)
      requires o in objs && o in s && !IsWhite(c) && (IsWhite(marked[o]) || o in busy)
      modifies `marked
      ensures MarkInv(e, busy + {o}, s)
      ensures marked == old(marked)[o := c]
      ensures !IsWhite(old(marked)[o]) ==> WhiteOnes(marked) == WhiteOnes(old(marked))
      ensures IsWhite(old(marked)[o]) ==>
        MarkStep(old(marked), gray, marked, gray) && o in WhiteOnes(old(marked)) && WhiteOnes(marked) == WhiteOnes(old(marked)) - {o}
    {
      RecolourWhites(marked, gray, o, c);
      marked := marked[o := c];
      assert forall x :: old(NonWhite(x)) ==> NonWhite(x);
    }

    method MarkString(o: Id, ghost e: set<Id>, ghost busy: set<Id>, ghost s: set<Id>)
      requires MarkInv(e, busy, s)
      requires o in objs && objs[o].Str? && o in s
      modifies `marked
      ensures MarkInv(e, busy, s)
      ensures NonWhite(o) && MarkStep(old(marked), old(gray), marked, gray)
    {
      if IsWhite(marked[o]) {
        Recolour(o, Gray, e, busy, s);
        if o !in busy {
          EndVisit(o, e, busy, s);
        }
      }
    }

    method PushGray(o: Id, ghost e: set<Id>, ghost busy: set<Id>, ghost s: set<Id>)
      requires MarkInv(e, busy, s)
      requires o in objs && o in marked && IsWhite(marked[o]) && o in s && Listable(objs[o])
      modifies `marked, `gray
      ensures MarkInv(e, busy, s)
      ensures NonWhite(o) && MarkStep(old(marked), old(gray), marked, gray)
    {
      assert o in WhiteOnes(marked);
      marked := marked[o := Gray];
      assert [o] + gray + grayagain + weak == [o] + (gray + grayagain + weak);
      gray := [o] + gray;
      assert forall x :: old(NonWhite(x)) ==> NonWhite(x);
    }

    method ReallyMarkObject(o: Id, ghost e: set<Id>, ghost busy: set<Id>, ghost s: set<Id>)
      requires MarkInv(e, busy, s)
      requires o in objs && o in marked && IsWhite(marked[o]) && o in s
      modifies `marked, `gray
      ensures MarkInv(e, busy, s)
      ensures NonWhite(o) && MarkStep(old(marked), old(gray), marked, gray)
      ensures o in WhiteOnes(old(marked)) && WhiteOnes(marked) < WhiteOnes(old(marked))
      decreases WhiteOnes(marked), 1
    {
      hide MarkInv;
      if o in busy {
        BusyIsMarked(o, e, busy, s);
      }
      if objs[o].Str? {
        MarkString(o, e, busy, s);
        MarkStepWhites(old(marked), old(gray), marked, gray);
      } else if objs[o].Userdata? {
        MarkUserdata(o, e, busy, s);
      } else if objs[o].Upval? {
        MarkUpval(o, e, busy, s);
      } else {
        PushGray(o, e, busy, s);
        MarkStepWhites(old(marked), old(gray), marked, gray);
      }
    }

    method MarkUserdata(o: Id, ghost e: set<Id>, ghost busy: set<Id>, ghost s: set<Id>)
      requires MarkInv(e, busy, s)
      requires o in objs && o in marked && IsWhite(marked[o]) && o in s && objs[o].Userdata? && o !in busy
      modifies `marked, `gray
      ensures MarkInv(e, busy, s)
      ensures NonWhite(o) && MarkStep(old(marked), old(gray), marked, gray)
      ensures o in WhiteOnes(old(marked)) && WhiteOnes(marked) < WhiteOnes(old(marked))
      decreases WhiteOnes(marked), 0
    {
      hide MarkInv, MarkStep, WhiteOnes;
      Recolour(o, Black, e, busy, s);
      if objs[o].meta.Some? {
        StrongTarget(e, busy + {o}, s, o, objs[o].meta.value);
        ghost var m, g := marked, gray;
        MarkObject(objs[o].meta.value, e, busy + {o}, s);
        MarkStepChain(old(marked), old(gray), m, g, marked, gray);
      }
      StrongTarget(e, busy + {o}, s, o, objs[o].env);
      ghost var m, g := marked, gray;
      MarkObject(objs[o].env, e, busy + {o}, s);
      MarkStepChain(old(marked), old(gray), m, g, marked, gray);
      MarkStepColour(m, g, marked, gray, o);
      NotListed(o, e, busy + {o}, s);
      EndVisit(o, e, busy, s);
    }

    /** Open upvalues stay gray, closed ones become black. */
    method MarkUpval(o: Id, ghost e: set<Id>, ghost busy: set<Id>, ghost s: set<Id>)
      requires MarkInv(e, busy, s)
      requires o in objs && o in marked && IsWhite(marked[o]) && o in s && objs[o].Upval? && o !in busy
      modifies `marked, `gray
      ensures MarkInv(e, busy, s)
      ensures NonWhite(o) && MarkStep(old(marked), old(gray), marked, gray)
      ensures o in WhiteOnes(old(marked)) && WhiteOnes(marked) < WhiteOnes(old(marked))
      decreases WhiteOnes(marked), 0
    {
      hide MarkInv, MarkStep, WhiteOnes;
      Recolour(o, Gray, e, busy, s);
      var v := UpvalValue(o);
      assert v.Ref? ==> StrongEdge(objs, modeName, o, v.id);
      if v.Ref? {
        StrongTarget(e, busy + {o}, s, o, v.id);
      }
      ghost var m, g := marked, gray;
      MarkValue(v, e, busy + {o}, s);
      MarkStepChain(old(marked), old(gray), m, g, marked, gray);
      MarkStepColour(m, g, marked, gray, o);
      NotListed(o, e, busy + {o}, s);
      if objs[o].place.Closed? {
        MarkStepRecolour(old(marked), old(gray), marked, gray, o, Black);
        Recolour(o, Black, e, busy + {o}, s);
        assert busy + {o} + {o} == busy + {o};
      }
      EndVisit(o, e, busy, s);
    }

    method MarkObject(o: Id, ghost e: set<Id>, ghost busy: set<Id>, ghost s: set<Id>)
      requires MarkInv(e, busy, s)
      requires o in objs && o in s
      modifies `marked, `gray
      ensures forall x :: old(NonWhite(x)) ==> NonWhite(x)
      ensures MarkInv(e, busy, s)
      ensures NonWhite(o) && MarkStep(old(marked), old(gray), marked, gray)
      ensures WhiteOnes(marked) <= WhiteOnes(old(marked))
      decreases WhiteOnes(marked), 2
    {
      if IsWhite(marked[o]) {
        ReallyMarkObject(o, e, busy, s);
      }
    }

    method MarkValue(v: Value, ghost e: set<Id>, ghost busy: set<Id>, ghost s: set<Id>)
      requires MarkInv(e, busy, s)
      requires v.Ref? ==> v.id in objs && v.id in s
      modifies `marked, `gray
      ensures forall x :: old(NonWhite(x)) ==> NonWhite(x)
      ensures MarkInv(e, busy, s)
      ensures (v.Ref? ==> NonWhite(v.id)) && MarkStep(old(marked), old(gray), marked, gray)
      ensures WhiteOnes(marked) <= WhiteOnes(old(marked))
      decreases WhiteOnes(marked), 3
    {
      if v.Ref? {
        MarkObject(v.id, e, busy, s);
      }
    }

    /** The value an upvalue stands for, wherever it lives. */
    function UpvalValue(u: Id): Value
      requires u in objs && objs[u].Upval?
      reads `objs
    {
      match objs[u].place
      case Closed(v) => v
      case Open(th, slot) =>
        if th in objs && objs[th].Thread? && slot < |objs[th].stack| then objs[th].stack[slot] else Nil
    }

    // ----- traversing one gray object -----

    function Letter(o: Id, c: char): bool
      requires o in objs
      reads `objs
    {
      HasMode(objs, modeName, objs[o], c)
    }

    method TraverseTable(h: Id, ghost e: set<Id>, ghost s: set<Id>) returns (isWeak: bool)
      requires h in objs && objs[h].Table? && h in s && !OnList(h)
      requires MarkInv(e, {h}, s)
      modifies `marked, `gray, `weak, `keyweak, `valueweak
      ensures MarkInv(e, {h}, s)
      ensures MarkStep(old(marked), old(gray), marked, gray)
      ensures isWeak == (Letter(h, 'k') || Letter(h, 'v'))
      ensures weak == (if isWeak then [h] else []) + old(weak)
      ensures isWeak ==> WeakBits(h)
      ensures forall y :: TableEdge(objs[h], Letter(h, 'k'), Letter(h, 'v'), y) ==> NonWhite(y)
    {
      hide MarkInv, MarkStep;
      BusyIsMarked(h, e, {h}, s);
      MarkStepSelf(marked, gray);
      var t := objs[h];
      if t.meta.Some? {
        StrongTarget(e, {h}, s, h, t.meta.value);
        MarkObject(t.meta.value, e, {h}, s);
      }
      var weakkey, weakvalue := Letter(h, 'k'), Letter(h, 'v');
      isWeak := weakkey || weakvalue;
      NotPushed(old(marked), old(gray), marked, gray, h);
      if isWeak {
        LinkWeak(h, weakkey, weakvalue, e, s);
      }
      if weakkey && weakvalue {
        return;
      }
      ghost var m, g := marked, gray;
      if !weakvalue {
        MarkValues(h, t.items, e, s);
        MarkStepChain(old(marked), old(gray), m, g, marked, gray);
        m, g := marked, gray;
      }
      TraverseNodes(h, weakkey, weakvalue, e, s);
      MarkStepChain(old(marked), old(gray), m, g, marked, gray);
    }

    lemma BusyIsMarked(o: Id, e: set<Id>, busy: set<Id>, s: set<Id>)
      requires MarkInv(e, busy, s) && o in busy
      ensures NonWhite(o)
    {
    }

    /** Puts a table on the weak list and records its mode. */
    method LinkWeak(h: Id, weakkey: bool, weakvalue: bool, ghost e: set<Id>, ghost s: set<Id>)
      requires MarkInv(e, {h}, s)
      requires h in objs && objs[h].Table? && !OnList(h)
      modifies `weak, `keyweak, `valueweak
      ensures MarkInv(e, {h}, s)
      ensures weak == [h] + old(weak)
      ensures h in keyweak <==> weakkey
      ensures h in valueweak <==> weakvalue
    {
      keyweak := if weakkey then keyweak + {h} else keyweak - {h};
      valueweak := if weakvalue then valueweak + {h} else valueweak - {h};
      weak := [h] + weak;
      InsertDistinct(gray + grayagain, h, old(weak));
      assert gray + grayagain + weak == gray + grayagain + [h] + old(weak);
    }

    method TraverseNodes(h: Id, weakkey: bool, weakvalue: bool, ghost e: set<Id>, ghost s: set<Id>)
      requires h in objs && objs[h].Table? && h in s
      requires MarkInv(e, {h}, s)
      requires weakkey == Letter(h, 'k') && weakvalue == Letter(h, 'v')
      modifies `marked, `gray
      ensures MarkInv(e, {h}, s)
      ensures forall x :: old(NonWhite(x)) ==> NonWhite(x)
      ensures MarkStep(old(marked), old(gray), marked, gray)
      ensures forall y :: NodeEdge(objs[h].node, !weakkey, !weakvalue, y) ==> NonWhite(y)
    {
      hide MarkInv, MarkStep;
      var node := objs[h].node;
      MarkStepSelf(marked, gray);
      var i := |node|;
      while i > 0
        invariant 0 <= i <= |node|
        invariant MarkInv(e, {h}, s)
        invariant forall x :: old(NonWhite(x)) ==> NonWhite(x)
        invariant MarkStep(old(marked), old(gray), marked, gray)
        invariant forall j :: i <= j < |node| ==> NodeMarked(node[j], weakkey, weakvalue)
      {
        i := i - 1;
        ghost var m, g := marked, gray;
        TraverseNode(h, i, weakkey, weakvalue, e, s);
        MarkStepChain(old(marked), old(gray), m, g, marked, gray);
      }
    }

    ghost predicate NodeMarked(n: Node, weakkey: bool, weakvalue: bool)
      reads `marked
    {
      n.val != Nil ==>
        && (!weakkey && n.key.Ref? ==> NonWhite(n.key.id))
        && (!weakvalue && n.val.Ref? ==> NonWhite(n.val.id))
    }

    method TraverseNode(h: Id, i: nat, weakkey: bool, weakvalue: bool, ghost e: set<Id>, ghost s: set<Id>)
      requires h in objs && objs[h].Table? && h in s && i < |objs[h].node|
      requires MarkInv(e, {h}, s)
      requires weakkey == Letter(h, 'k') && weakvalue == Letter(h, 'v')
      modifies `marked, `gray
      ensures MarkInv(e, {h}, s)
      ensures MarkStep(old(marked), old(gray), marked, gray)
      ensures forall x :: old(NonWhite(x)) ==> NonWhite(x)
      ensures NodeMarked(objs[h].node[i], weakkey, weakvalue)
    {
      hide MarkInv, MarkStep;
      MarkStepSelf(marked, gray);
      var n := objs[h].node[i];
      assert n in objs[h].node;
      if n.val != Nil {
        if !weakkey {
          if n.key.Ref? {
            StrongTarget(e, {h}, s, h, n.key.id);
          }
          MarkValue(n.key, e, {h}, s);
        }
        if !weakvalue {
          if n.val.Ref? {
            StrongTarget(e, {h}, s, h, n.val.id);
          }
          ghost var m, g := marked, gray;
          MarkValue(n.val, e, {h}, s);
          MarkStepChain(old(marked), old(gray), m, g, marked, gray);
        }
      }
    }

    /** The loops over stacks, constants and C upvalues: mark a list of values
        that all are strong references of `o`. */
    method MarkValues(o: Id, vs: seq<Value>, ghost e: set<Id>, ghost s: set<Id>)
      requires MarkInv(e, {o}, s) && o in s
      requires forall v :: v in vs && v.Ref? ==> StrongEdge(objs, modeName, o, v.id)
      modifies `marked, `gray
      ensures MarkInv(e, {o}, s)
      ensures forall x :: old(NonWhite(x)) ==> NonWhite(x)
      ensures MarkStep(old(marked), old(gray), marked, gray)
      ensures forall y :: Ref(y) in vs ==> NonWhite(y)
    {
      hide MarkInv, MarkStep;
      MarkStepSelf(marked, gray);
      var i := 0;
      while i < |vs|
        invariant 0 <= i <= |vs|
        invariant MarkInv(e, {o}, s)
        invariant forall x :: old(NonWhite(x)) ==> NonWhite(x)
        invariant MarkStep(old(marked), old(gray), marked, gray)
        invariant forall j :: 0 <= j < i && vs[j].Ref? ==> NonWhite(vs[j].id)
      {
        if vs[i].Ref? {
          StrongTarget(e, {o}, s, o, vs[i].id);
        }
        ghost var m, g := marked, gray;
        MarkValue(vs[i], e, {o}, s);
        MarkStepChain(old(marked), old(gray), m, g, marked, gray);
        i := i + 1;
      }
    }

    method MarkObjects(o: Id, ids: seq<Id>, ghost e: set<Id>, ghost s: set<Id>)
      requires MarkInv(e, {o}, s) && o in s
      requires forall y :: y in ids ==> StrongEdge(objs, modeName, o, y)
      modifies `marked, `gray
      ensures MarkInv(e, {o}, s)
      ensures forall x :: old(NonWhite(x)) ==> NonWhite(x)
      ensures MarkStep(old(marked), old(gray), marked, gray)
      ensures forall y :: y in ids ==> NonWhite(y)
    {
      hide MarkInv, MarkStep;
      MarkStepSelf(marked, gray);
      var i := 0;
      while i < |ids|
        invariant 0 <= i <= |ids|
        invariant MarkInv(e, {o}, s)
        invariant forall x :: old(NonWhite(x)) ==> NonWhite(x)
        invariant MarkStep(old(marked), old(gray), marked, gray)
        invariant forall j :: 0 <= j < i ==> NonWhite(ids[j])
      {
        StrongTarget(e, {o}, s, o, ids[i]);
        ghost var m, g := marked, gray;
        MarkObject(ids[i], e, {o}, s);
        MarkStepChain(old(marked), old(gray), m, g, marked, gray);
        i := i + 1;
      }
    }

    method TraverseProto(o: Id, ghost e: set<Id>, ghost s: set<Id>)
      requires MarkInv(e, {o}, s) && o in s && o in objs && objs[o].Proto?
      modifies `marked, `gray
      ensures MarkInv(e, {o}, s)
      ensures MarkStep(old(marked), old(gray), marked, gray)
      ensures forall y :: Edge(objs, o, y) ==> NonWhite(y)
    {
      hide MarkInv;
      var f := objs[o];
      if f.source.Some? {
        ProtoNames(o, e, s);
        StrongTarget(e, {o}, s, o, f.source.value);
        MarkString(f.source.value, e, {o}, s);
      }
      ghost var m, g := marked, gray;
      MarkValues(o, f.k, e, s);
      MarkStepChain(old(marked), old(gray), m, g, marked, gray);
      m, g := marked, gray;
      MarkStrings(o, f.upvalueNames, e, s);
      MarkStepChain(old(marked), old(gray), m, g, marked, gray);
      m, g := marked, gray;
      MarkObjects(o, f.protos, e, s);
      MarkStepChain(old(marked), old(gray), m, g, marked, gray);
      m, g := marked, gray;
      MarkStrings(o, f.localNames, e, s);
      MarkStepChain(old(marked), old(gray), m, g, marked, gray);
    }

    lemma ProtoNames(o: Id, e: set<Id>, s: set<Id>)
      requires MarkInv(e, {o}, s) && o in objs && objs[o].Proto?
      ensures NamesAreStrings(objs, o)
    {
    }

    /** The stringmark loops over names: strings are marked without being listed. */
    method MarkStrings(o: Id, ids: seq<Id>, ghost e: set<Id>, ghost s: set<Id>)
      requires MarkInv(e, {o}, s) && o in s && o in objs && objs[o].Proto?
      requires ids == objs[o].upvalueNames || ids == objs[o].localNames
      modifies `marked
      ensures MarkInv(e, {o}, s)
      ensures MarkStep(old(marked), old(gray), marked, gray)
      ensures forall y :: y in ids ==> NonWhite(y)
    {
      hide MarkInv;
      ProtoNames(o, e, s);
      var i := 0;
      while i < |ids|
        invariant 0 <= i <= |ids|
        invariant MarkInv(e, {o}, s)
        invariant MarkStep(old(marked), old(gray), marked, gray)
        invariant forall j :: 0 <= j < i ==> NonWhite(ids[j])
      {
        StrongTarget(e, {o}, s, o, ids[i]);
        MarkString(ids[i], e, {o}, s);
        i := i + 1;
      }
    }

    method TraverseClosure(o: Id, ghost e: set<Id>, ghost s: set<Id>)
      requires MarkInv(e, {o}, s) && o in s && o in objs && (objs[o].CClosure? || objs[o].LClosure?)
      modifies `marked, `gray
      ensures MarkInv(e, {o}, s)
      ensures MarkStep(old(marked), old(gray), marked, gray)
      ensures forall y :: Edge(objs, o, y) ==> NonWhite(y)
    {
      hide MarkInv;
      var cl := objs[o];
      StrongTarget(e, {o}, s, o, cl.env);
      MarkObject(cl.env, e, {o}, s);
      ghost var m, g := marked, gray;
      if cl.CClosure? {
        MarkValues(o, cl.upvalues, e, s);
      } else {
        StrongTarget(e, {o}, s, o, cl.proto);
        MarkObject(cl.proto, e, {o}, s);
        ghost var m1, g1 := marked, gray;
        MarkObjects(o, cl.upvals, e, s);
        MarkStepChain(m, g, m1, g1, marked, gray);
      }
      MarkStepChain(old(marked), old(gray), m, g, marked, gray);
    }

    method TraverseStack(o: Id, ghost e: set<Id>, ghost s: set<Id>)
      requires MarkInv(e, {o}, s) && o in s && o in objs && objs[o].Thread?
      modifies `marked, `gray
      ensures MarkInv(e, {o}, s)
      ensures MarkStep(old(marked), old(gray), marked, gray)
      ensures forall y :: Edge(objs, o, y) ==> NonWhite(y)
    {
      hide MarkInv;
      var th := objs[o];
      MarkValues(o, [th.globals], e, s);
      ghost var m, g := marked, gray;
      MarkValues(o, th.stack, e, s);
      MarkStepChain(old(marked), old(gray), m, g, marked, gray);
    }

    // ----- propagation -----

    /** The first gray object leaves its list and is traversed. */
    method TakeGray(ghost e: set<Id>, ghost s: set<Id>) returns (o: Id)
      requires MarkInv(e, {}, s) && gray != []
      modifies `marked, `gray
      ensures MarkInv(e, {o}, s)
      ensures o == old(gray)[0] && gray == old(gray)[1..]
      ensures o in objs && Listable(objs[o]) && o in s && !OnList(o)
      ensures marked == old(marked)[o := Black]
      ensures WhiteOnes(marked) == WhiteOnes(old(marked))
    {
      o := gray[0];
      var rest := gray[1..] + grayagain + weak;
      assert gray + grayagain + weak == [o] + rest;
      forall i | 0 <= i < |rest|
        ensures rest[i] != o
      {
        assert (gray + grayagain + weak)[0] != (gray + grayagain + weak)[i + 1];
      }
      assert o !in rest;
      assert OnList(o);
      marked := marked[o := Black];
      gray := gray[1..];
      assert Distinct(rest) && gray + grayagain + weak == rest by {
        forall i, j | 0 <= i < j < |rest|
          ensures rest[i] != rest[j]
        {
          assert old(gray + grayagain + weak)[i + 1] != old(gray + grayagain + weak)[j + 1];
        }
      }
      assert forall x :: old(OnList(x)) <==> OnList(x) || x == o;
      assert forall x :: old(NonWhite(x)) <==> NonWhite(x);
    }

    method LinkGrayAgain(o: Id, ghost e: set<Id>, ghost s: set<Id>)
      requires MarkInv(e, {o}, s)
      requires o in objs && objs[o].Thread? && !OnList(o)
      modifies `grayagain
      ensures MarkInv(e, {o}, s)
      ensures grayagain == [o] + old(grayagain)
    {
      assert gray + (grayagain + weak) == gray + grayagain + weak;
      InsertDistinct(gray, o, grayagain + weak);
      grayagain := [o] + grayagain;
      assert gray + grayagain + weak == gray + [o] + (old(grayagain) + weak);
      assert gray + old(grayagain) + weak == gray + (old(grayagain) + weak);
    }

    /** Visits the edges of `o`; a table answers whether it is weak. */
    method Traverse(o: Id, ghost e: set<Id>, ghost s: set<Id>) returns (isWeak: bool)
      requires MarkInv(e, {o}, s)
      requires o in objs && Listable(objs[o]) && o in s
      requires objs[o].Table? ==> !OnList(o)
      modifies `marked, `gray, `weak, `keyweak, `valueweak
      ensures MarkInv(e, {o}, s)
      ensures MarkStep(old(marked), old(gray), marked, gray)
      ensures WhiteOnes(marked) <= WhiteOnes(old(marked))
      ensures isWeak ==> objs[o].Table?
      ensures weak == (if isWeak then [o] else []) + old(weak)
      ensures isWeak ==> WeakBits(o)
      ensures forall y :: StrongEdge(objs, modeName, o, y) ==> NonWhite(y)
      ensures !isWeak ==> forall y :: Edge(objs, o, y) ==> NonWhite(y)
    {
      hide MarkInv;
      isWeak := false;
      if objs[o].Table? {
        isWeak := TraverseTable(o, e, s);
      } else if objs[o].Thread? {
        TraverseStack(o, e, s);
      } else if objs[o].Proto? {
        TraverseProto(o, e, s);
      } else {
        TraverseClosure(o, e, s);
      }
      MarkStepWhites(old(marked), old(gray), marked, gray);
    }

    method PropagateMark(ghost e: set<Id>, ghost s: set<Id>)
      requires MarkInv(e, {}, s) && gray != []
      modifies `marked, `gray, `grayagain, `weak, `keyweak, `valueweak
      ensures MarkInv(e, {}, s)
      ensures forall x :: old(NonWhite(x)) ==> NonWhite(x)
      ensures WhiteOnes(marked) < WhiteOnes(old(marked)) ||
        (WhiteOnes(marked) == WhiteOnes(old(marked)) && |gray| < |old(gray)|)
      ensures forall x :: x in old(grayagain) ==> x in grayagain
      ensures forall x :: x in old(weak) ==> x in weak
    {
      hide MarkInv, StrongEdge, Edge;
      var o := TakeGray(e, s);
      assert {o} + {o} == {o} && {} + {o} == {o};
      if objs[o].Thread? {
        LinkGrayAgain(o, e, s);
        Recolour(o, Gray, e, {o}, s);
      }
      var isWeak := Traverse(o, e, s);
      if isWeak {
        Recolour(o, Gray, e, {o}, s);
      }
      EndVisit(o, e, {}, s);
    }

    method PropagateAll(ghost e: set<Id>, ghost s: set<Id>)
      requires MarkInv(e, {}, s)
      modifies `marked, `gray, `grayagain, `weak, `keyweak, `valueweak
      ensures MarkInv(e, {}, s) && gray == []
      ensures forall x :: old(NonWhite(x)) ==> NonWhite(x)
      ensures forall x :: x in old(grayagain) ==> x in grayagain
      ensures forall x :: x in old(weak) ==> x in weak
    {
      hide MarkInv;
      while gray != []
        invariant MarkInv(e, {}, s)
        invariant forall x :: old(NonWhite(x)) ==> NonWhite(x)
        invariant forall x :: x in old(grayagain) ==> x in grayagain
        invariant forall x :: x in old(weak) ==> x in weak
        decreases WhiteOnes(marked), |gray|
      {
        PropagateMark(e, s);
      }
    }

    // ----- the roots and the atomic step -----

    function RootSet(): set<Id>
      reads `registry, `mt, `running
    {
      Roots(mainthread, registry, mt, running)
    }

    static function Roots(mainthread: Id, registry: Value, mt: seq<Option<Id>>, running: Id): set<Id> {
      {mainthread, running}
      + (if registry.Ref? then {registry.id} else {})
      + (set i | 0 <= i < |mt| && mt[i].Some? :: mt[i].value)
    }

    lemma RootsAre()
      ensures RootSet() == Roots(mainthread, registry, mt, running)
    {
    }

    method MarkMt(ghost e: set<Id>, ghost s: set<Id>)
      requires MarkInv(e, {}, s) && RootSet() <= s && RootSet() <= objs.Keys
      modifies `marked, `gray
      ensures forall x :: old(NonWhite(x)) ==> NonWhite(x)
      ensures MarkInv(e, {}, s)
      ensures MarkStep(old(marked), old(gray), marked, gray)
      ensures forall i :: 0 <= i < |mt| && mt[i].Some? ==> NonWhite(mt[i].value)
    {
      hide MarkInv, MarkStep;
      MarkStepSelf(marked, gray);
      var i := 0;
      while i < |mt|
        invariant 0 <= i <= |mt|
        invariant MarkInv(e, {}, s)
        invariant forall x :: old(NonWhite(x)) ==> NonWhite(x)
        invariant MarkStep(old(marked), old(gray), marked, gray)
        invariant forall j :: 0 <= j < i && mt[j].Some? ==> NonWhite(mt[j].value)
      {
        if mt[i].Some? {
          assert mt[i].value in RootSet();
          ghost var m, g := marked, gray;
          MarkObject(mt[i].value, e, {}, s);
          MarkStepChain(old(marked), old(gray), m, g, marked, gray);
        }
        i := i + 1;
      }
    }

    method ResetLists(ghost s: set<Id>)
      requires MarkableHeap() && marked.Keys == objs.Keys && IsWhite(currentwhite)
      requires forall x :: x in objs ==> marked[x] == currentwhite
      requires StrongClosed(objs, modeName, s)
      modifies `gray, `grayagain, `weak
      ensures MarkInv({}, {}, s)
      ensures gray == [] && grayagain == [] && weak == []
    {
      gray, grayagain, weak := [], [], [];
    }

    /** The marks on the main thread, its globals and the registry. */
    method MarkAnchors(ghost s: set<Id>)
      requires MarkInv({}, {}, s)
      requires mainthread in objs && mainthread in s && objs[mainthread].Thread?
      requires registry.Ref? ==> registry.id in objs && registry.id in s
      modifies `marked, `gray
      ensures MarkInv({}, {}, s)
      ensures NonWhite(mainthread) && (registry.Ref? ==> NonWhite(registry.id))
    {
      hide MarkInv, MarkStep;
      MarkObject(mainthread, {}, {}, s);
      var g := objs[mainthread].globals;
      if g.Ref? {
        StrongTarget({}, {}, s, mainthread, g.id);
      }
      MarkValue(g, {}, {}, s);
      MarkValue(registry, {}, {}, s);
    }

    lemma AnchorsAreRoots()
      ensures mainthread in RootSet() && (registry.Ref? ==> registry.id in RootSet())
    {
    }

    /** Starts a collection on a heap of current whites. */
    method MarkRoot(ghost s: set<Id>)
      requires MarkableHeap() && marked.Keys == objs.Keys && IsWhite(currentwhite)
      requires forall x :: x in objs ==> marked[x] == currentwhite
      requires StrongClosed(objs, modeName, s) && RootSet() <= s && RootSet() <= objs.Keys
      requires objs[mainthread].Thread?
      modifies `marked, `gray, `grayagain, `weak, `gcstate
      ensures MarkInv({}, {}, s)
      ensures grayagain == [] && weak == [] && gcstate == Propagate
      ensures NonWhite(mainthread) && (registry.Ref? ==> NonWhite(registry.id))
    {
      hide *;
      AnchorsAreRoots();
      ResetLists(s);
      MarkAnchors(s);
      MarkMt({}, s);
      gcstate := Propagate;
    }

    /** Marked objects that may have changed since they were traversed. */
    ghost function Stale(): set<Id>
      reads `objs, `grayagain, `weak
    {
      OpenOnes(objs) + SetOf(grayagain) + SetOf(weak)
    }

    lemma MoreStale(e: set<Id>, e': set<Id>, s: set<Id>)
      requires MarkInv(e, {}, s) && e <= e'
      ensures MarkInv(e', {}, s)
    {
    }

    lemma LessStale(x: Id, e: set<Id>, s: set<Id>)
      requires MarkInv(e, {}, s)
      requires !OnList(x) && (NonWhite(x) ==> Clean(x))
      ensures MarkInv(e - {x}, {}, s)
    {
    }

    method RemarkUpval(u: Id, ghost e: set<Id>, ghost s: set<Id>)
      requires MarkInv(e, {}, s)
      requires u in objs && u in marked && IsOpen(objs[u])
      modifies `marked, `gray
      ensures MarkInv(e - {u}, {}, s)
      ensures forall x :: old(NonWhite(x)) ==> NonWhite(x)
    {
      hide MarkInv, MarkStep;
      NotListed(u, e, {}, s);
      OpenIsNotBlack(u, e, s);
      if marked[u] == Gray {
        var v := UpvalValue(u);
        assert v.Ref? ==> StrongEdge(objs, modeName, u, v.id);
        MarkedIsIn(u, e, s);
        if v.Ref? {
          StrongTarget(e, {}, s, u, v.id);
        }
        MarkValue(v, e, {}, s);
        NotListed(u, e, {}, s);
        OpenIsNotBlack(u, e, s);
      }
      LessStale(u, e, s);
    }

    /** Marks what open upvalues hold, also those of threads that died. */
    method RemarkUpvals(ghost s: set<Id>)
      requires MarkInv(Stale(), {}, s)
      requires forall x :: x in uvhead <==> x in objs && IsOpen(objs[x])
      modifies `marked, `gray
      ensures MarkInv(SetOf(grayagain) + SetOf(weak), {}, s)
      ensures forall x :: old(NonWhite(x)) ==> NonWhite(x)
    {
      ghost var e := Stale();
      ghost var keep := SetOf(grayagain) + SetOf(weak);
      StaleIsListed();
      hide *;
      var i := 0;
      while i < |uvhead|
        invariant 0 <= i <= |uvhead|
        invariant MarkInv(e, {}, s)
        invariant forall x :: old(NonWhite(x)) ==> NonWhite(x)
        invariant e <= keep + SetOf(uvhead[i..])
      {
        assert uvhead[i] in uvhead;
        KeysMatch(e, s);
        RemarkUpval(uvhead[i], e, s);
        DropFirst(uvhead[i..]);
        assert uvhead[i..][1..] == uvhead[i + 1..];
        e := e - {uvhead[i]};
        i := i + 1;
      }
      assert SetOf(uvhead[i..]) == {} by {
        SetOfNothing();
        assert uvhead[i..] == [];
      }
      MoreStale(e, keep, s);
    }

    lemma StaleIsListed()
      requires forall x :: x in uvhead <==> x in objs && IsOpen(objs[x])
      ensures Stale() <= SetOf(grayagain) + SetOf(weak) + SetOf(uvhead[0..])
    {
      assert uvhead[0..] == uvhead;
      forall x | x in Stale()
        ensures x in SetOf(grayagain) + SetOf(weak) + SetOf(uvhead)
      {
        assert x in uvhead || x in grayagain || x in weak;
      }
    }

    lemma KeysMatch(e: set<Id>, s: set<Id>)
      requires MarkInv(e, {}, s)
      ensures marked.Keys == objs.Keys
    {
    }

    lemma MarkedIsIn(x: Id, e: set<Id>, s: set<Id>)
      requires MarkInv(e, {}, s) && NonWhite(x)
      ensures x in s
    {
    }

    lemma OpenIsNotBlack(u: Id, e: set<Id>, s: set<Id>)
      requires MarkInv(e, {}, s) && u in objs && IsOpen(objs[u])
      ensures marked[u] != Black
    {
    }

    /** Step three of the atomic phase: the weak list becomes the gray list. */
    method RegrayWeak(ghost e: set<Id>, ghost s: set<Id>)
      requires MarkInv(e, {}, s) && gray == []
      requires e <= SetOf(grayagain) + SetOf(weak)
      modifies `gray, `weak
      ensures MarkInv(SetOf(grayagain), {}, s)
      ensures gray == old(weak) && weak == []
    {
      assert gray + grayagain + weak == grayagain + weak;
      SwapDistinct(grayagain, weak);
      gray := weak;
      weak := [];
      assert gray + grayagain + weak == gray + grayagain;
    }

    /** Step four: what the write barrier caught, and all threads. */
    method RegrayAgain(ghost e: set<Id>, ghost s: set<Id>)
      requires MarkInv(e, {}, s) && gray == []
      requires e <= SetOf(grayagain)
      modifies `gray, `grayagain
      ensures MarkInv({}, {}, s)
      ensures gray == old(grayagain) && grayagain == []
    {
      var all := gray + grayagain + weak;
      assert all == grayagain + [] + weak;
      assert forall x :: x in grayagain ==> x !in weak by {
        PartsDisjoint(gray, grayagain, weak);
      }
      gray := grayagain;
      grayagain := [];
    }

    /** All marking of the atomic step. Afterwards every marked object is clean
        and the weak list holds exactly the tables to be cleared. */
    method MarkAll(ghost s: set<Id>)
      requires MarkInv(Stale(), {}, s)
      requires forall x :: x in uvhead <==> x in objs && IsOpen(objs[x])
      requires RootSet() <= s && RootSet() <= objs.Keys
      modifies `marked, `gray, `grayagain, `weak, `keyweak, `valueweak
      ensures MarkInv({}, {}, s) && gray == []
      ensures forall x :: old(NonWhite(x)) ==> NonWhite(x)
      ensures NonWhite(running)
      ensures forall i :: 0 <= i < |mt| && mt[i].Some? ==> NonWhite(mt[i].value)
    {
      assert running in RootSet();
      hide *;
      RemarkUpvals(s);
      var e := MarkWeakAgain(s);
      MarkRunning(e, s);
      MarkAgain(e, s);
    }

    method MarkWeakAgain(ghost s: set<Id>) returns (ghost e: set<Id>)
      requires MarkInv(SetOf(grayagain) + SetOf(weak), {}, s)
      modifies `marked, `gray, `grayagain, `weak, `keyweak, `valueweak
      ensures MarkInv(e, {}, s) && e == SetOf(grayagain)
      ensures forall x :: old(NonWhite(x)) ==> NonWhite(x)
    {
      ghost var ga, w := grayagain, weak;
      ghost var e1 := SetOf(ga) + SetOf(w);
      hide MarkInv;
      PropagateAll(e1, s);
      KeptInSet(ga, grayagain);
      KeptInSet(w, weak);
      RegrayWeak(e1, s);
      e := SetOf(grayagain);
    }

    method MarkRunning(ghost e: set<Id>, ghost s: set<Id>)
      requires MarkInv(e, {}, s)
      requires running in s && running in objs
      requires RootSet() <= s && RootSet() <= objs.Keys
      modifies `marked, `gray
      ensures MarkInv(e, {}, s)
      ensures forall x :: old(NonWhite(x)) ==> NonWhite(x)
      ensures NonWhite(running)
      ensures forall i :: 0 <= i < |mt| && mt[i].Some? ==> NonWhite(mt[i].value)
    {
      hide MarkInv, MarkStep, RootSet;
      MarkObject(running, e, {}, s);
      MarkMt(e, s);
    }

    method MarkAgain(ghost e: set<Id>, ghost s: set<Id>)
      requires MarkInv(e, {}, s) && e == SetOf(grayagain)
      modifies `marked, `gray, `grayagain, `weak, `keyweak, `valueweak
      ensures MarkInv({}, {}, s) && gray == []
      ensures forall x :: old(NonWhite(x)) ==> NonWhite(x)
    {
      ghost var ga := grayagain;
      hide MarkInv;
      PropagateAll(e, s);
      KeptInSet(ga, grayagain);
      RegrayAgain(e, s);
      PropagateAll({}, s);
    }

    // ----- clearing weak tables -----

    /** Whether a key or value goes from a weak table; strings are marked
        instead, since they are never removed. */
    method IsCleared(v: Value) returns (gone: bool)
      requires v.Ref? ==> v.id in objs && v.id in marked
      modifies `marked
      ensures gone == Gone(objs, old(marked), v)
      ensures StringMarks(objs, old(marked), marked)
      ensures forall y :: y in marked && marked[y] != old(marked)[y] ==> v == Ref(y)
      ensures !gone && v.Ref? ==> NonWhite(v.id)
    {
      if !v.Ref? {
        return false;
      }
      if objs[v.id].Str? {
        if IsWhite(marked[v.id]) {
          marked := marked[v.id := Gray];
        }
        return false;
      }
      return IsWhite(marked[v.id]);
    }

    method ClearItems(h: Id)
      requires h in objs && objs[h].Table? && marked.Keys == objs.Keys
      requires forall v :: v in objs[h].items && v.Ref? ==> v.id in objs
      modifies `objs, `marked
      ensures h in objs && objs[h].Table? && objs == old(objs)[h := old(objs)[h].(items := objs[h].items)]
      ensures ItemsCleared(old(objs), old(marked), old(objs)[h].items, objs[h].items)
      ensures StringMarks(old(objs), old(marked), marked)
      ensures forall y :: y in marked && marked[y] != old(marked)[y] ==> Ref(y) in old(objs)[h].items
      ensures forall v :: v in objs[h].items && v.Ref? ==> NonWhite(v.id)
    {
      var was := objs[h].items;
      var i := |was|;
      while i > 0
        invariant 0 <= i <= |was|
        invariant h in objs && objs[h].Table?
        invariant objs == old(objs)[h := old(objs)[h].(items := objs[h].items)]
        invariant |objs[h].items| == |was|
        invariant forall j :: 0 <= j < i ==> objs[h].items[j] == was[j]
        invariant forall j :: i <= j < |was| ==>
          objs[h].items[j] == if Gone(old(objs), old(marked), was[j]) then Nil else was[j]
        invariant StringMarks(old(objs), old(marked), marked)
        invariant forall y :: y in marked && marked[y] != old(marked)[y] ==> Ref(y) in was
        invariant forall j :: i <= j < |was| && objs[h].items[j].Ref? ==> NonWhite(objs[h].items[j].id)
      {
        i := i - 1;
        assert was[i] in was;
        GoneStable(old(objs), old(marked), objs, marked, was[i]);
        var gone := IsCleared(was[i]);
        if gone {
          objs := objs[h := objs[h].(items := objs[h].items[i := Nil])];
        }
      }
    }

    method ClearNodeAt(h: Id, i: nat)
      requires h in objs && objs[h].Table? && marked.Keys == objs.Keys && i < |objs[h].node|
      requires var n := objs[h].node[i];
        n.val != Nil ==> (n.key.Ref? ==> n.key.id in objs) && (n.val.Ref? ==> n.val.id in objs)
      modifies `objs, `marked
      ensures objs == old(objs)[h := old(objs)[h].(node := old(objs)[h].node[i := ClearNode(old(objs), old(marked), old(objs)[h].node[i])])]
      ensures StringMarks(old(objs), old(marked), marked)
      ensures forall y :: y in marked && marked[y] != old(marked)[y] ==>
        NodeTouches(old(objs), old(marked), old(objs)[h].node[i], y)
      ensures NodeDone(old(objs), old(marked), old(objs)[h].node[i], marked)
    {
      var n := objs[h].node[i];
      if n.val != Nil {
        var gone := IsCleared(n.key);
        if !gone {
          GoneStable(old(objs), old(marked), objs, marked, n.val);
          gone := IsCleared(n.val);
        }
        if gone {
          objs := objs[h := objs[h].(node := objs[h].node[i := Node(n.key, Nil)])];
        }
      }
      assert objs[h].node == old(objs)[h].node[i := objs[h].node[i]];
      assert objs == old(objs)[h := objs[h]];
    }

    method ClearNodes(h: Id)
      requires h in objs && objs[h].Table? && marked.Keys == objs.Keys
      requires forall n :: n in objs[h].node && n.val != Nil ==>
        (n.key.Ref? ==> n.key.id in objs) && (n.val.Ref? ==> n.val.id in objs)
      modifies `objs, `marked
      ensures h in objs && objs[h].Table? && objs == old(objs)[h := old(objs)[h].(node := objs[h].node)]
      ensures NodesCleared(old(objs), old(marked), old(objs)[h].node, objs[h].node)
      ensures StringMarks(old(objs), old(marked), marked)
      ensures forall y :: y in marked && marked[y] != old(marked)[y] ==>
        NodesTouch(old(objs), old(marked), old(objs)[h].node, y)
      ensures forall n :: n in old(objs)[h].node ==> NodeDone(old(objs), old(marked), n, marked)
    {
      ghost var h0, m0 := objs, marked;
      var was := objs[h].node;
      hide StringMarks, ClearNode, NodeTouches, NodeDone, Gone;
      MarksSelf(h0, m0);
      var i := |was|;
      while i > 0
        invariant 0 <= i <= |was|
        invariant h in objs && objs[h].Table? && objs == h0[h := h0[h].(node := objs[h].node)]
        invariant |objs[h].node| == |was|
        invariant forall j :: 0 <= j < i ==> objs[h].node[j] == was[j]
        invariant forall j :: i <= j < |was| ==> objs[h].node[j] == ClearNode(h0, m0, was[j])
        invariant StringMarks(h0, m0, marked) && marked.Keys == m0.Keys
        invariant forall y :: y in marked && marked[y] != m0[y] ==> NodesTouch(h0, m0, was, y)
        invariant forall j :: i <= j < |was| ==> NodeDone(h0, m0, was[j], marked)
      {
        i := i - 1;
        assert was[i] in was;
        ghost var h1, m1 := objs, marked;
        ClearNodeAt(h, i);
        NodeStable(h0, m0, h1, m1, was[i], marked);
        StringMarksChain(h0, m0, h1, m1, marked);
        DoneStays(h0, m0, h1, m1, was, i + 1, marked);
      }
    }

    /** One table of the weak list: afterwards no entry leads to a white object. */
    method ClearTable(h: Id)
      requires h in objs && objs[h].Table? && marked.Keys == objs.Keys
      requires forall y :: Edge(objs, h, y) ==> y in objs
      requires forall y :: TableEdge(objs[h], h in keyweak, h in valueweak, y) ==> y in marked && !IsWhite(marked[y])
      modifies `objs, `marked
      ensures h in objs && objs[h].Table? && objs == old(objs)[h := objs[h]]
      ensures TableCleared(old(objs), old(marked), h in valueweak, old(objs)[h], objs[h])
      ensures StringMarks(old(objs), old(marked), marked)
      ensures TouchExact(old(objs), old(marked), old(objs)[h], h in valueweak, marked)
      ensures forall y :: Edge(objs, h, y) ==> y in marked && !IsWhite(marked[y])
    {
      ghost var h0, m0 := objs, marked;
      var t := objs[h];
      forall v | v in t.items && v.Ref?
        ensures v.id in objs && (h !in valueweak ==> NonWhite(v.id))
      {
        assert Edge(objs, h, v.id);
        assert h !in valueweak ==> TableEdge(t, h in keyweak, h in valueweak, v.id);
      }
      forall n | n in t.node && n.val != Nil
        ensures (n.key.Ref? ==> n.key.id in objs) && (n.val.Ref? ==> n.val.id in objs)
      {
        assert n.key.Ref? ==> Edge(objs, h, n.key.id);
        assert n.val.Ref? ==> Edge(objs, h, n.val.id);
      }
      assert t.meta.Some? ==> TableEdge(t, h in keyweak, h in valueweak, t.meta.value);
      MarksSelf(h0, m0);
      if h in valueweak {
        ClearItems(h);
      }
      ghost var h1, m1 := objs, marked;
      ClearNodes(h);
      TableDone(h0, m0, h1, m1, objs, marked, h, h in valueweak);
    }

    /** When marking is over, a listed weak table has its strong edges marked. */
    lemma WeakTablesReady(s: set<Id>)
      requires MarkInv({}, {}, s) && gray == []
      ensures WeakReady(objs, marked, weak, keyweak, valueweak)
    {
      var all := gray + grayagain + weak;
      forall i, j | 0 <= i < j < |weak|
        ensures weak[i] != weak[j]
      {
        assert all[|grayagain| + i] != all[|grayagain| + j];
      }
      forall x, y | x in weak && x in objs && objs[x].Table? && TableEdge(objs[x], x in keyweak, x in valueweak, y)
        ensures y in marked && !IsWhite(marked[y])
      {
        assert OnList(x) && StrongEdge(objs, modeName, x, y);
        assert NonWhite(y);
      }
    }

    /** ... and every other marked object has all of its edges marked. */
    lemma OthersClean(s: set<Id>)
      requires MarkInv({}, {}, s) && gray == []
      ensures forall x, y :: NonWhite(x) && x !in weak && Edge(objs, x, y) ==> NonWhite(y)
    {
      forall x, y | NonWhite(x) && x !in weak && Edge(objs, x, y)
        ensures NonWhite(y)
      {
        assert Clean(x);
        if marked[x] != Black {
          assert !objs[x].Table?;
          assert StrongEdge(objs, modeName, x, y);
        }
      }
    }

    method ClearLoop()
      requires WeakReady(objs, marked, weak, keyweak, valueweak)
      modifies `objs, `marked
      ensures WeakCleared(old(objs), old(marked), weak, valueweak, objs)
      ensures StringMarks(old(objs), old(marked), marked)
      ensures AllTouchExact(old(objs), old(marked), weak, valueweak, marked)
      ensures EdgesMarked(objs, marked, weak)
    {
      assert weak[..0] == [];
      hide *;
      ghost var h, m := objs, marked;
      ClearingStarts(h, m, valueweak);
      var i := 0;
      while i < |weak|
        invariant 0 <= i <= |weak|
        invariant WeakCleared(h, m, weak[..i], valueweak, objs)
        invariant StringMarks(h, m, marked)
        invariant EdgesMarked(objs, marked, weak[..i])
        invariant AllTouchExact(h, m, weak[..i], valueweak, marked)
      {
        ClearNext(i, h, m);
        i := i + 1;
      }
      assert weak[..i] == weak;
    }

    method ClearNext(i: nat, ghost h: Heap, ghost m: map<Id, Colour>)
      requires i < |weak| && WeakReady(h, m, weak, keyweak, valueweak)
      requires WeakCleared(h, m, weak[..i], valueweak, objs) && StringMarks(h, m, marked)
      requires EdgesMarked(objs, marked, weak[..i]) && AllTouchExact(h, m, weak[..i], valueweak, marked)
      modifies `objs, `marked
      ensures WeakCleared(h, m, weak[..i + 1], valueweak, objs) && StringMarks(h, m, marked)
      ensures EdgesMarked(objs, marked, weak[..i + 1]) && AllTouchExact(h, m, weak[..i + 1], valueweak, marked)
    {
      hide *;
      ghost var h1, m1 := objs, marked;
      WeakReadyFacts(h, m, weak, keyweak, valueweak);
      WeakReadyAt(h, m, weak, keyweak, valueweak, i, h1, m1);
      ClearTable(weak[i]);
      AfterClearing(h, m, weak, i, valueweak, h1, m1, objs, marked);
    }

    /** cleartable over the whole weak list. */
    method ClearTables(ghost s: set<Id>)
      requires MarkInv({}, {}, s) && gray == []
      modifies `objs, `marked
      ensures WeakCleared(old(objs), old(marked), weak, valueweak, objs)
      ensures StringMarks(old(objs), old(marked), marked)
      ensures AllTouchExact(old(objs), old(marked), weak, valueweak, marked)
      ensures forall x, y :: NonWhite(x) && Edge(objs, x, y) ==> NonWhite(y)
    {
      WeakTablesReady(s);
      OthersClean(s);
      hide MarkInv;
      ghost var h, m := objs, marked;
      ClearLoop();
      MarkedEdges(objs, marked, weak);
      forall x, y | NonWhite(x) && Edge(objs, x, y)
        ensures NonWhite(y)
      {
        if x !in weak {
          EdgeUncleared(h, m, weak, valueweak, objs, x, y);
          assert !h[x].Str? ==> old(NonWhite(x)) && old(NonWhite(y));
        }
      }
    }

    // ----- what every step keeps -----

    ghost predicate Alive(x: Id)
      reads `objs, `marked, `fixed, `currentwhite
    {
      NotDead(objs, marked, fixed, currentwhite, x)
    }

    ghost predicate RootsAlive()
      reads `objs, `marked, `fixed, `currentwhite, `registry, `mt, `running
    {
      forall x :: x in RootSet() ==> Alive(x)
    }

    /** The part of the invariant that is the same in all five states. */
    ghost predicate Core()
      reads `objs, `marked, `fixed, `currentwhite, `registry, `mt, `running, `strt, `nuse, `rootgc, `uvhead
    {
      true <==> (
        && Consistent(objs, marked, fixed, currentwhite)
        && Rooted(objs, fixed, mainthread, running, modeName)
        && RootsAlive()
        && AliveClosed(objs, marked, fixed, currentwhite)
        && ListsOk(objs, strt, nuse, hash, rootgc, uvhead)
      )
    }

    /** The part that depends on the state of the collector. */
    ghost predicate Phase()
      reads this
    {
      match gcstate
      case Pause => AllCurrent(marked, currentwhite, objs.Keys)
      case Finalize => AllCurrent(marked, currentwhite, objs.Keys)
      case Propagate =>
        && MarkInv(Stale(), {}, objs.Keys)
        && NonWhite(mainthread) && (registry.Ref? ==> NonWhite(registry.id))
      case SweepString =>
        && sweepstrgc < |strt| && sweepgc == 0
        && BucketsCurrent(marked, currentwhite, strt, sweepstrgc)
      case Sweep =>
        && sweepgc <= |rootgc|
        && AllCurrent(marked, currentwhite, Strings(objs))
        && SweptPrefix(objs, marked, currentwhite, rootgc[..sweepgc])
    }

    ghost predicate Valid()
      reads this
    {
      Core() && Phase()
    }

    /** Safety, in every state: what can be reached is there, and no sweep may
        free it. */
    lemma ReachableIsAlive(x: Id)
      requires Core()
      requires Reach(objs, RootSet(), x)
      ensures Alive(x)
    {
      ReachIsAlive(objs, marked, fixed, currentwhite, RootSet(), x);
    }

    // ----- the flip -----

    /** What the flip needs: no marked object leads to a white one. */
    ghost predicate ReadyToFlip()
      reads `objs, `marked, `currentwhite, `registry, `mt, `running
    {
      && Flippable(objs, marked, currentwhite)
      && (forall x, y :: NonWhite(x) && Edge(objs, x, y) ==> NonWhite(y))
      && (forall x :: x in RootSet() ==> NonWhite(x))
    }

    lemma FactsOfMarking(s: set<Id>)
      requires MarkInv({}, {}, s)
      ensures Flippable(objs, marked, currentwhite)
    {
    }

    /** Clearing changes tables only, so no list is affected. */
    method ClearKeepingLists(ghost s: set<Id>)
      requires MarkInv({}, {}, s) && gray == []
      requires ListsOk(objs, strt, nuse, hash, rootgc, uvhead) && Rooted(objs, fixed, mainthread, running, modeName)
      requires forall x :: x in RootSet() ==> NonWhite(x)
      modifies `objs, `marked
      ensures WeakCleared(old(objs), old(marked), weak, valueweak, objs)
      ensures StringMarks(old(objs), old(marked), marked)
      ensures AllTouchExact(old(objs), old(marked), weak, valueweak, marked)
      ensures ListsOk(objs, strt, nuse, hash, rootgc, uvhead) && Rooted(objs, fixed, mainthread, running, modeName)
      ensures ReadyToFlip()
    {
      hide *;
      RootsMarked();
      FactsOfMarking(s);
      ClearTables(s);
      ClearedKeeps(old(objs), old(marked), weak, valueweak, objs, marked, currentwhite,
        strt, nuse, hash, rootgc, uvhead, fixed, mainthread, running, modeName);
      RootsStayMarked(old(objs), old(marked), marked, RootSet());
      FlipIsReady();
    }

    lemma RootsMarked()
      requires forall x :: x in RootSet() ==> NonWhite(x)
      ensures forall x :: x in RootSet() ==> x in marked && !IsWhite(marked[x])
    {
    }

    lemma FlipIsReady()
      requires Flippable(objs, marked, currentwhite)
      requires forall x, y :: NonWhite(x) && Edge(objs, x, y) ==> NonWhite(y)
      requires forall x :: x in RootSet() ==> x in marked && !IsWhite(marked[x])
      ensures ReadyToFlip()
    {
    }

    /** MarkAll, and what it means for the roots. */
    method MarkForAtomic(ghost s: set<Id>)
      requires Rooted(objs, fixed, mainthread, running, modeName) && RootsAlive() && UpvalsListed(objs, uvhead)
        && MarkInv(Stale(), {}, s) && RootSet() <= s
      requires NonWhite(mainthread) && (registry.Ref? ==> NonWhite(registry.id))
      modifies `marked, `gray, `grayagain, `weak, `keyweak, `valueweak
      ensures MarkInv({}, {}, s) && gray == []
      ensures forall x :: x in RootSet() ==> NonWhite(x)
    {
      forall r | r in RootSet()
        ensures r in objs
      {
        assert Alive(r);
      }
      assert RootSet() <= objs.Keys;
      assert forall x :: x in uvhead <==> x in objs && IsOpen(objs[x]);
      hide MarkInv, UpvalsListed, RootsAlive, Stale;
      MarkAll(s);
    }

    method Flip()
      requires ReadyToFlip() && Rooted(objs, fixed, mainthread, running, modeName)
      modifies `currentwhite, `sweepstrgc, `sweepgc, `gcstate
      ensures Consistent(objs, marked, fixed, currentwhite) && RootsAlive()
        && AliveClosed(objs, marked, fixed, currentwhite)
      ensures currentwhite == Other(old(currentwhite))
      ensures gcstate == SweepString && sweepstrgc == 0 && sweepgc == 0
    {
      currentwhite := Other(currentwhite);
      sweepstrgc := 0;
      sweepgc := 0;
      gcstate := SweepString;
      forall x, y | Alive(x) && Edge(objs, x, y)
        ensures Alive(y)
      {
        assert x == mainthread ==> x in RootSet();
        assert NonWhite(x);
      }
    }

    /** When marking is over, everything strongly reachable is marked. */
    lemma StrongReachIsMarked(s: set<Id>, x: Id)
      requires MarkInv({}, {}, s) && gray == []
      requires forall r :: r in RootSet() ==> NonWhite(r)
      requires StrongReach(objs, modeName, RootSet(), x)
      ensures NonWhite(x)
    {
      var n := set y | y in marked && NonWhite(y);
      forall y, z | y in n && StrongEdge(objs, modeName, y, z)
        ensures z in n
      {
        StrongIsEdge(objs, modeName, y, z);
        assert Clean(y);
      }
      forall r | r in RootSet()
        ensures r in n
      {
        assert NonWhite(r);
      }
      assert RootSet() <= n && StrongClosed(objs, modeName, n);
      assert x in n;
    }

    /** The end of the mark phase: marks what is left, clears the weak tables
        and turns the white objects into dead ones. `m` are the final marks:
        they cover what is strongly reachable and stay within `s`, and an entry
        is cleared exactly when its key or value was left unmarked. */
    method Atomic(ghost s: set<Id>) returns (ghost m: map<Id, Colour>)
      requires Core() && MarkInv(Stale(), {}, s) && RootSet() <= s
      requires NonWhite(mainthread) && (registry.Ref? ==> NonWhite(registry.id))
      modifies `objs, `marked, `gray, `grayagain, `weak, `keyweak, `valueweak,
        `currentwhite, `sweepstrgc, `sweepgc, `gcstate
      ensures Core() && Phase() && gcstate == SweepString
      ensures currentwhite == Other(old(currentwhite))
      ensures AtomicDone(old(objs), modeName, RootSet(), m, s, old(currentwhite), weak, valueweak, objs, marked)
    {
      hide *;
      CoreParts();
      MarkForAtomic(s);
      m := marked;
      FactsOfMarking(s);
      FlippableMeans();
      FinalMarks(s);
      FinalWeak(s);
      ClearKeepingLists(s);
      AtomicTogether(old(objs), modeName, RootSet(), m, s, currentwhite, weak, valueweak, objs, marked);
      Flip();
      SweepMayStart();
    }

    lemma FlippableMeans()
      requires Flippable(objs, marked, currentwhite)
      ensures marked.Keys == objs.Keys && forall x :: x in objs ==> marked[x] != Other(currentwhite)
    {
    }

    lemma FinalMarks(s: set<Id>)
      requires MarkInv({}, {}, s) && gray == []
      requires forall r :: r in RootSet() ==> NonWhite(r)
      ensures MarksExact(objs, modeName, RootSet(), marked, s)
    {
      forall x | StrongReach(objs, modeName, RootSet(), x)
        ensures x in marked && !IsWhite(marked[x])
      {
        StrongReachIsMarked(s, x);
      }
    }

    lemma FinalWeak(s: set<Id>)
      requires MarkInv({}, {}, s) && gray == []
      ensures FreshWeak(objs, modeName, marked, weak, valueweak)
    {
      forall t | t in weak
        ensures t in objs && t in marked && !IsWhite(marked[t]) && objs[t].Table?
        ensures t in valueweak <==> HasMode(objs, modeName, objs[t], 'v')
      {
        assert OnList(t) && WeakBits(t);
      }
      forall x, y | x in marked && !IsWhite(marked[x]) && x in objs && objs[x].Table? && x !in weak && Edge(objs, x, y)
        ensures y in marked && !IsWhite(marked[y])
      {
        assert NonWhite(x) && Clean(x);
        assert marked[x] == Black;
        assert NonWhite(y);
      }
    }

    lemma CoreParts()
      requires Core()
      ensures Consistent(objs, marked, fixed, currentwhite)
      ensures Rooted(objs, fixed, mainthread, running, modeName)
      ensures RootsAlive()
      ensures AliveClosed(objs, marked, fixed, currentwhite)
      ensures ListsOk(objs, strt, nuse, hash, rootgc, uvhead) && UpvalsListed(objs, uvhead)
    {
    }

    lemma SweepMayStart()
      requires Consistent(objs, marked, fixed, currentwhite)
      requires Rooted(objs, fixed, mainthread, running, modeName)
      requires RootsAlive()
      requires AliveClosed(objs, marked, fixed, currentwhite)
      requires ListsOk(objs, strt, nuse, hash, rootgc, uvhead)
      requires gcstate == SweepString && sweepstrgc == 0 && sweepgc == 0
      ensures Core() && Phase()
    {
    }

    // ----- sweeping -----

    /** The test of sweeplist: not dead, or fixed. */
    predicate Survives(x: Id)
      requires x in marked
      reads `marked, `fixed, `currentwhite
    {
      marked[x] != Other(currentwhite) || x in fixed
    }

    method Whiten(x: Id)
      requires Core() && Alive(x)
      modifies `marked
      ensures Core() && marked == old(marked)[x := currentwhite]
      ensures Swept(objs, old(marked), objs, marked, fixed, currentwhite)
    {
      hide *;
      CoreFacts();
      AliveMeans(x);
      WhitenFacts(objs, marked, fixed, currentwhite, x);
      WhitenSwept(objs, marked, fixed, currentwhite, x);
      marked := marked[x := currentwhite];
      CoreAgain();
    }

    /** `g` and `bytes` are `currentwhite` and the bytes `marked` of the objects. */
    ghost predicate InBytes(g: bv8, bytes: map<Id, bv8>)
      reads `objs, `marked, `fixed, `currentwhite
    {
      EncodesWhite(g, currentwhite) && EncodesAll(bytes, marked, fixed)
    }

    /** The test above is the bit test of sweeplist, and turning the white around
        is the exclusive or of atomic. */
    lemma SweepBytes(g: bv8, bytes: map<Id, bv8>, x: Id)
      requires InBytes(g, bytes) && x in marked
      ensures x in bytes && (Survives(x) <==> SweepKeeps(g, bytes[x]))
      ensures EncodesWhite(OtherWhite(g), Other(currentwhite))
    {
      SweepTest(g, currentwhite, bytes[x], marked[x], x in fixed);
      FlipWhite(g, currentwhite);
    }

    /** Whiten is makewhite on the byte, which keeps all other bits. */
    lemma WhitenBytes(g: bv8, bytes: map<Id, bv8>, x: Id)
      requires InBytes(g, bytes) && x in marked
      ensures x in bytes
      ensures EncodesAll(bytes[x := MakeWhite(g, bytes[x])], marked[x := currentwhite], fixed)
      ensures MakeWhite(g, bytes[x]) & 0xF8 == bytes[x] & 0xF8
    {
      Whitened(g, currentwhite, bytes[x], marked[x], x in fixed);
    }

    lemma AliveMeans(x: Id)
      ensures Alive(x) <==> NotDead(objs, marked, fixed, currentwhite, x)
    {
    }

    lemma CoreAgain()
      requires HeapOk(objs, marked, fixed, currentwhite)
      requires Rooted(objs, fixed, mainthread, running, modeName)
      requires forall x :: x in RootSet() ==> NotDead(objs, marked, fixed, currentwhite, x)
      requires ListsOk(objs, strt, nuse, hash, rootgc, uvhead)
      ensures Core()
    {
    }

    lemma CoreFacts()
      requires Core()
      ensures HeapOk(objs, marked, fixed, currentwhite) && marked.Keys == objs.Keys && IsWhite(currentwhite)
      ensures Rooted(objs, fixed, mainthread, running, modeName)
      ensures forall x :: x in RootSet() ==> NotDead(objs, marked, fixed, currentwhite, x)
      ensures NotDead(objs, marked, fixed, currentwhite, mainthread)
      ensures NotDead(objs, marked, fixed, currentwhite, running)
      ensures StringsListed(objs, strt, nuse, hash) && RootsListed(objs, rootgc) && UpvalsListed(objs, uvhead)
      ensures ListsOk(objs, strt, nuse, hash, rootgc, uvhead)
    {
      assert mainthread in RootSet() && running in RootSet();
    }

    method FreeString(b: nat, i: nat)
      requires Core() && b < |strt| && i < |strt[b]| && !Alive(strt[b][i])
      modifies `objs, `marked, `strt, `nuse
      ensures Core()
      ensures strt == old(strt)[b := RemoveAt(old(strt)[b], i)]
      ensures objs == old(objs) - {old(strt)[b][i]} && marked == old(marked) - {old(strt)[b][i]}
      ensures Swept(old(objs), old(marked), objs, marked, fixed, currentwhite)
    {
      hide *;
      StringFreed(b, i);
      var x := strt[b][i];
      strt := strt[b := RemoveAt(strt[b], i)];
      nuse := nuse - 1;
      objs := objs - {x};
      marked := marked - {x};
      CoreAgain();
    }

    lemma StringFreed(b: nat, i: nat)
      requires Core() && b < |strt| && i < |strt[b]| && !Alive(strt[b][i])
      ensures nuse > 0
      ensures HeapOk(objs - {strt[b][i]}, marked - {strt[b][i]}, fixed, currentwhite)
      ensures Rooted(objs - {strt[b][i]}, fixed, mainthread, running, modeName)
      ensures forall y :: y in RootSet() ==> NotDead(objs - {strt[b][i]}, marked - {strt[b][i]}, fixed, currentwhite, y)
      ensures ListsOk(objs - {strt[b][i]}, strt[b := RemoveAt(strt[b], i)], nuse - 1, hash, rootgc, uvhead)
      ensures Swept(objs, marked, objs - {strt[b][i]}, marked - {strt[b][i]}, fixed, currentwhite)
    {
      hide *;
      var x := strt[b][i];
      CoreFacts();
      BucketFacts(b, i);
      AliveMeans(x);
      FreeFacts(objs, marked, fixed, currentwhite, x);
      FreeSwept(objs, marked, fixed, currentwhite, x);
      FreeRooted(objs, marked, fixed, currentwhite, mainthread, running, modeName, x);
      FreeStringLists(objs, strt, nuse, hash, b, i);
      FreeStringOthers(objs, rootgc, uvhead, x);
      ListsTogether(objs - {x}, strt[b := RemoveAt(strt[b], i)], nuse - 1, hash, rootgc, uvhead);
    }

    /** One iteration of sweeplist on a bucket. */
    method SweepStringAt(b: nat, i: nat) returns (next: nat)
      requires Core() && b < |strt| && i < |strt[b]|
      requires AllCurrent(marked, currentwhite, SetOf(strt[b][..i]))
      modifies `objs, `marked, `strt, `nuse
      ensures Core()
      ensures |strt| == |old(strt)| && forall c :: 0 <= c < |strt| && c != b ==> strt[c] == old(strt)[c]
      ensures i <= next <= |strt[b]| && |strt[b]| - next < |old(strt)[b]| - i
      ensures AllCurrent(marked, currentwhite, SetOf(strt[b][..next]))
      ensures forall x :: x in objs ==> x in old(objs) && objs[x] == old(objs)[x]
      ensures Swept(old(objs), old(marked), objs, marked, fixed, currentwhite)
    {
      CoreFacts();
      ghost var s, m := strt[b], marked;
      BucketFacts(b, i);
      hide *;
      if Survives(strt[b][i]) {
        SurvivorsAlive(s[i]);
        Whiten(strt[b][i]);
        CurrentGrows(m, currentwhite, s, i);
        next := i + 1;
      } else {
        SurvivorsAlive(s[i]);
        FreeString(b, i);
        CurrentKept(m, currentwhite, s, i);
        next := i;
      }
    }

    lemma SurvivorsAlive(x: Id)
      requires x in objs && x in marked
      ensures Survives(x) <==> Alive(x)
    {
    }

    lemma BucketFacts(b: nat, i: nat)
      requires StringsListed(objs, strt, nuse, hash) && b < |strt| && i < |strt[b]| && marked.Keys == objs.Keys
      ensures Distinct(strt[b]) && strt[b][i] in objs && strt[b][i] in marked && objs[strt[b][i]].Str?
    {
      var x := strt[b][i];
      assert x in strt[b];
    }

    /** sweepwholelist on one bucket of the string table. */
    method SweepBucket(b: nat)
      requires Core() && b < |strt|
      modifies `objs, `marked, `strt, `nuse
      ensures Core()
      ensures |strt| == |old(strt)| && forall c :: 0 <= c < |strt| && c != b ==> strt[c] == old(strt)[c]
      ensures AllCurrent(marked, currentwhite, SetOf(strt[b]))
      ensures forall x :: x in objs ==> x in old(objs) && objs[x] == old(objs)[x]
      ensures Swept(old(objs), old(marked), objs, marked, fixed, currentwhite)
    {
      hide *;
      CoreFacts();
      SweptSelf(objs, marked, fixed, currentwhite);
      NoneCurrent(marked, currentwhite, strt[b]);
      var i := 0;
      while i < |strt[b]|
        invariant Core()
        invariant |strt| == |old(strt)| && i <= |strt[b]|
        invariant forall c :: 0 <= c < |strt| && c != b ==> strt[c] == old(strt)[c]
        invariant AllCurrent(marked, currentwhite, SetOf(strt[b][..i]))
        invariant forall x :: x in objs ==> x in old(objs) && objs[x] == old(objs)[x]
        invariant Swept(old(objs), old(marked), objs, marked, fixed, currentwhite)
        decreases |strt[b]| - i
      {
        ghost var h, m := objs, marked;
        i := SweepStringAt(b, i);
        SweptChain(old(objs), old(marked), h, m, objs, marked, fixed, currentwhite);
      }
      assert strt[b][..i] == strt[b];
    }

    /** Unlinks an open upvalue from the global list. */
    method Unlink(u: Id) returns (ghost k: nat)
      requires u in uvhead
      modifies `uvhead
      ensures k < |old(uvhead)| && old(uvhead)[k] == u && uvhead == RemoveAt(old(uvhead), k)
      ensures |uvhead| == |old(uvhead)| - 1
    {
      var j := 0;
      while uvhead[j] != u
        invariant j < |uvhead| && u !in uvhead[..j]
        decreases |uvhead| - j
      {
        assert uvhead == uvhead[..j] + [uvhead[j]] + uvhead[j + 1..];
        j := j + 1;
      }
      k := j;
      uvhead := RemoveAt(uvhead, j);
    }

    /** freeobj for a dead open upvalue, on its way out of its thread's list. */
    method FreeOpenAt(t: Id, i: nat)
      requires Core() && t in objs && objs[t].Thread? && i < |objs[t].openupval|
      requires !Alive(objs[t].openupval[i])
      modifies `objs, `marked, `uvhead
      ensures Core()
      ensures objs == DropOpen(old(objs), t, i, old(objs)[t].openupval[i])
      ensures marked == old(marked) - {old(objs)[t].openupval[i]}
      ensures |uvhead| < |old(uvhead)|
      ensures Swept(old(objs), old(marked), objs, marked, fixed, currentwhite)
    {
      hide *;
      CoreFacts();
      AliveMeans(objs[t].openupval[i]);
      var u := objs[t].openupval[i];
      OpenEntry(t, i);
      FreeOpenFacts(objs, marked, fixed, currentwhite, t, i);
      ghost var was := uvhead;
      ghost var k := Unlink(u);
      FreeOpenLists(objs, marked, fixed, currentwhite, t, i, k, strt, nuse, hash, rootgc, was, mainthread, running,
        modeName);
      SweptRoots(objs, marked, DropOpen(objs, t, i, u), marked - {u}, fixed, currentwhite);
      objs := DropOpen(objs, t, i, u);
      marked := marked - {u};
      CoreAgain();
    }

    lemma OpenEntry(t: Id, i: nat)
      requires UpvalsListed(objs, uvhead)
      requires t in objs && objs[t].Thread? && i < |objs[t].openupval|
      ensures objs[t].openupval[i] in objs && IsOpen(objs[objs[t].openupval[i]])
      ensures objs[objs[t].openupval[i]].place.thread == t && objs[t].openupval[i] in uvhead
      ensures Distinct(objs[t].openupval)
    {
      assert OpenList(objs, t);
      var u := objs[t].openupval[i];
      assert u in objs[t].openupval;
    }

    /** One iteration of sweeplist on the open upvalues of a thread. */
    method SweepOpenAt(t: Id, i: nat) returns (next: nat)
      requires Core() && t in objs && objs[t].Thread? && i < |objs[t].openupval|
      requires AllCurrent(marked, currentwhite, SetOf(objs[t].openupval[..i]))
      modifies `objs, `marked, `uvhead
      ensures Core() && t in objs && objs[t].Thread?
      ensures i <= next <= |objs[t].openupval| && |objs[t].openupval| - next < |old(objs)[t].openupval| - i
      ensures AllCurrent(marked, currentwhite, SetOf(objs[t].openupval[..next]))
      ensures |uvhead| <= |old(uvhead)|
      ensures Swept(old(objs), old(marked), objs, marked, fixed, currentwhite)
    {
      CoreFacts();
      OpenEntry(t, i);
      ghost var s, m := objs[t].openupval, marked;
      var u := objs[t].openupval[i];
      SurvivorsAlive(u);
      assert u != t;
      if Survives(u) {
        hide *;
        Whiten(u);
        CurrentGrows(m, currentwhite, s, i);
        next := i + 1;
      } else {
        hide Core, Swept, HeapOk, Rooted, ListsOk, StringsListed, RootsListed, UpvalsListed, AllCurrent;
        FreeOpenAt(t, i);
        CurrentKept(m, currentwhite, s, i);
        next := i;
      }
    }

    method SweepOpen(t: Id)
      requires Core() && t in objs && objs[t].Thread?
      modifies `objs, `marked, `uvhead
      ensures Core() && t in objs && objs[t].Thread?
      ensures AllCurrent(marked, currentwhite, SetOf(objs[t].openupval))
      ensures |uvhead| <= |old(uvhead)|
      ensures Swept(old(objs), old(marked), objs, marked, fixed, currentwhite)
    {
      hide *;
      CoreFacts();
      SweptSelf(objs, marked, fixed, currentwhite);
      NoneCurrent(marked, currentwhite, objs[t].openupval);
      var i := 0;
      while i < |objs[t].openupval|
        invariant Core() && t in objs && objs[t].Thread? && i <= |objs[t].openupval|
        invariant AllCurrent(marked, currentwhite, SetOf(objs[t].openupval[..i]))
        invariant |uvhead| <= |old(uvhead)|
        invariant Swept(old(objs), old(marked), objs, marked, fixed, currentwhite)
        decreases |objs[t].openupval| - i
      {
        ghost var h, m := objs, marked;
        CoreFacts();
        i := SweepOpenAt(t, i);
        SweptChain(old(objs), old(marked), h, m, objs, marked, fixed, currentwhite);
      }
      assert objs[t].openupval[..i] == objs[t].openupval;
    }

    /** What luaF_close does to a live upvalue, up to its colour: it leaves the
        open lists, takes its value with it and joins the list of all objects.
        A sweep position at the head of that list stays at the head. */
    method CloseHead(t: Id)
      requires Core() && t in objs && objs[t].Thread? && objs[t].openupval != []
      requires objs[t].openupval[0] in objs && objs[objs[t].openupval[0]].Upval?
      modifies `objs, `uvhead, `rootgc, `sweepgc
      ensures Core()
      ensures objs == CloseFirst(old(objs), t)
      ensures rootgc == [old(objs)[t].openupval[0]] + old(rootgc)
      ensures sweepgc == (if old(sweepgc) == 0 then 0 else old(sweepgc) + 1)
      ensures |uvhead| == |old(uvhead)| - 1
      ensures Swept(old(objs), marked, objs, marked, fixed, currentwhite)
    {
      hide *;
      CoreFacts();
      var u := objs[t].openupval[0];
      OpenEntry(t, 0);
      CloseFirstFacts(objs, marked, fixed, currentwhite, t);
      ghost var was := uvhead;
      ghost var k := Unlink(u);
      CloseFirstLists(objs, fixed, t, k, strt, nuse, hash, rootgc, was, mainthread, running, modeName);
      SweptRoots(objs, marked, CloseFirst(objs, t), marked, fixed, currentwhite);
      objs := CloseFirst(objs, t);
      rootgc := [u] + rootgc;
      sweepgc := if sweepgc == 0 then 0 else sweepgc + 1;
      CoreAgain();
    }

    /** luaE_freethread closes what is still open, before the thread goes. */
    method CloseAll(t: Id) returns (ghost pre: seq<Id>)
      requires Core() && t in objs && objs[t].Thread?
      requires AllCurrent(marked, currentwhite, SetOf(objs[t].openupval))
      requires sweepgc <= |rootgc| && SweptPrefix(objs, marked, currentwhite, rootgc[..sweepgc])
      modifies `objs, `uvhead, `rootgc, `sweepgc
      ensures Core() && t in objs && objs[t].Thread? && objs[t].openupval == []
      ensures rootgc == pre + old(rootgc) && |uvhead| + |pre| == |old(uvhead)|
      ensures sweepgc == (if old(sweepgc) == 0 then 0 else old(sweepgc) + |pre|)
      ensures SweptPrefix(objs, marked, currentwhite, rootgc[..sweepgc])
      ensures Swept(old(objs), marked, objs, marked, fixed, currentwhite)
    {
      hide *;
      CoreFacts();
      SweptSelf(objs, marked, fixed, currentwhite);
      pre := [];
      assert rootgc == pre + rootgc;
      while objs[t].openupval != []
        invariant Core() && t in objs && objs[t].Thread?
        invariant AllCurrent(marked, currentwhite, SetOf(objs[t].openupval))
        invariant rootgc == pre + old(rootgc) && |uvhead| + |pre| == |old(uvhead)|
        invariant sweepgc == (if old(sweepgc) == 0 then 0 else old(sweepgc) + |pre|)
        invariant SweptPrefix(objs, marked, currentwhite, rootgc[..sweepgc])
        invariant Swept(old(objs), marked, objs, marked, fixed, currentwhite)
        decreases |uvhead|
      {
        pre := CloseNext(t, pre, old(objs), old(rootgc));
      }
    }

    method CloseNext(t: Id, ghost pre: seq<Id>, ghost h0: Heap, ghost r0: seq<Id>) returns (ghost pre': seq<Id>)
      requires Core() && t in objs && objs[t].Thread? && objs[t].openupval != []
      requires AllCurrent(marked, currentwhite, SetOf(objs[t].openupval))
      requires rootgc == pre + r0
      requires sweepgc <= |rootgc| && SweptPrefix(objs, marked, currentwhite, rootgc[..sweepgc])
      requires Swept(h0, marked, objs, marked, fixed, currentwhite)
      modifies `objs, `uvhead, `rootgc, `sweepgc
      ensures Core() && t in objs && objs[t].Thread?
      ensures AllCurrent(marked, currentwhite, SetOf(objs[t].openupval))
      ensures rootgc == pre' + r0 && |pre'| == |pre| + 1 && |uvhead| == |old(uvhead)| - 1
      ensures sweepgc == (if old(sweepgc) == 0 then 0 else old(sweepgc) + 1)
      ensures SweptPrefix(objs, marked, currentwhite, rootgc[..sweepgc])
      ensures Swept(h0, marked, objs, marked, fixed, currentwhite)
    {
      hide *;
      ghost var h, r, p := objs, rootgc, sweepgc;
      CoreFacts();
      OpenEntry(t, 0);
      CloseHead(t);
      CoreFacts();
      AfterClosing(h, t, r, p);
      SweptChain(h0, marked, h, marked, objs, marked, fixed, currentwhite);
      pre' := [h[t].openupval[0]] + pre;
      assert rootgc == pre' + r0;
    }

    lemma AfterClosing(h: Heap, t: Id, r: seq<Id>, p: nat)
      requires t in h && h[t].Thread? && h[t].openupval != []
      requires h[t].openupval[0] in h && h[h[t].openupval[0]].Upval? && h[t].openupval[0] != t
      requires objs == CloseFirst(h, t) && rootgc == [h[t].openupval[0]] + r
      requires p <= |r| && sweepgc == (if p == 0 then 0 else p + 1)
      requires SweptPrefix(h, marked, currentwhite, r[..p])
      requires AllCurrent(marked, currentwhite, SetOf(h[t].openupval))
      requires UpvalsListed(objs, uvhead)
      ensures t in objs && objs[t].Thread? && objs[t].openupval == h[t].openupval[1..]
      ensures AllCurrent(marked, currentwhite, SetOf(objs[t].openupval))
      ensures SweptPrefix(objs, marked, currentwhite, rootgc[..sweepgc])
    {
      var u := h[t].openupval[0];
      assert objs[t].openupval == h[t].openupval[1..];
      assert u in SetOf(h[t].openupval);
      assert forall x :: x in rootgc[..sweepgc] ==> x == u || x in r[..p];
      forall x | x in OpenOf(objs, SetOf(rootgc[..sweepgc]))
        ensures x in marked && marked[x] == currentwhite
      {
        assert objs[x].place.thread != u && h[x] == objs[x];
        assert x in OpenOf(h, SetOf(r[..p]));
      }
    }

    /** freeobj on an object of the main list that has nothing open. */
    method FreeRootAt(at: nat)
      requires Core() && sweepgc <= at < |rootgc| && rootgc[at] in objs && !Alive(rootgc[at])
      requires objs[rootgc[at]].Thread? ==> objs[rootgc[at]].openupval == []
      requires SweptPrefix(objs, marked, currentwhite, rootgc[..sweepgc])
      modifies `objs, `marked, `rootgc
      ensures Core()
      ensures |rootgc| == |old(rootgc)| - 1
      ensures SweptPrefix(objs, marked, currentwhite, rootgc[..sweepgc])
      ensures Swept(old(objs), old(marked), objs, marked, fixed, currentwhite)
    {
      hide *;
      var x := rootgc[at];
      CoreFacts();
      AliveMeans(x);
      FreeRootLists(objs, strt, nuse, hash, rootgc, uvhead, at);
      FreeInHeap(objs, marked, fixed, currentwhite, mainthread, running, modeName, x);
      PrefixStays(objs, marked, fixed, currentwhite, rootgc, at, sweepgc);
      SweptRoots(objs, marked, objs - {x}, marked - {x}, fixed, currentwhite);
      RemoveAtLength(rootgc, at);
      rootgc := RemoveAt(rootgc, at);
      objs := objs - {x};
      marked := marked - {x};
      CoreAgain();
    }

    /** Frees the dead object at the sweep position. */
    method FreeRoot()
      requires Core() && sweepgc < |rootgc| && rootgc[sweepgc] in objs && !Alive(rootgc[sweepgc])
      requires objs[rootgc[sweepgc]].Thread? ==>
        AllCurrent(marked, currentwhite, SetOf(objs[rootgc[sweepgc]].openupval))
      requires SweptPrefix(objs, marked, currentwhite, rootgc[..sweepgc])
      modifies `objs, `marked, `uvhead, `rootgc, `sweepgc
      ensures Core() && sweepgc <= |rootgc|
      ensures SweptPrefix(objs, marked, currentwhite, rootgc[..sweepgc])
      ensures |rootgc| - sweepgc + |uvhead| < |old(rootgc)| - old(sweepgc) + |old(uvhead)|
      ensures Swept(old(objs), old(marked), objs, marked, fixed, currentwhite)
    {
      hide *;
      if !objs[rootgc[sweepgc]].Thread? {
        FreeRootAt(sweepgc);
      } else {
        CoreFacts();
        var t, at, n := rootgc[sweepgc], sweepgc, |rootgc|;
        AliveMeans(t);
        ghost var pre := CloseAll(t);
        at := at + |rootgc| - n;
        SweptDead(old(objs), old(marked), objs, marked, fixed, currentwhite, t);
        AliveMeans(t);
        ghost var h, m := objs, marked;
        FreeRootAt(at);
        SweptChain(old(objs), old(marked), h, m, objs, marked, fixed, currentwhite);
      }
    }

    /** One iteration of sweeplist on the main list. */
    method SweepRoot()
      requires Core() && sweepgc < |rootgc|
      requires SweptPrefix(objs, marked, currentwhite, rootgc[..sweepgc])
      modifies `objs, `marked, `uvhead, `rootgc, `sweepgc
      ensures Core() && sweepgc <= |rootgc|
      ensures SweptPrefix(objs, marked, currentwhite, rootgc[..sweepgc])
      ensures |rootgc| - sweepgc + |uvhead| < |old(rootgc)| - old(sweepgc) + |old(uvhead)|
      ensures Swept(old(objs), old(marked), objs, marked, fixed, currentwhite)
    {
      hide *;
      CoreFacts();
      RootEntry(objs, marked, rootgc, sweepgc);
      SweptSelf(objs, marked, fixed, currentwhite);
      if objs[rootgc[sweepgc]].Thread? {
        ghost var h, m := objs, marked;
        SweepOpen(rootgc[sweepgc]);
        CoreFacts();
        PrefixInHeap(sweepgc);
        PrefixSwept(h, m, objs, marked, fixed, currentwhite, rootgc[..sweepgc]);
        RootEntry(objs, marked, rootgc, sweepgc);
      }
      SweepRootItself(old(objs), old(marked));
    }

    lemma PrefixInHeap(p: nat)
      requires RootsListed(objs, rootgc) && p <= |rootgc|
      ensures forall x :: x in rootgc[..p] ==> x in objs
    {
      forall x | x in rootgc[..p]
        ensures x in objs
      {
        assert x in rootgc;
      }
    }

    method SweepRootItself(ghost h0: Heap, ghost m0: map<Id, Colour>)
      requires Core() && sweepgc < |rootgc| && rootgc[sweepgc] in objs && rootgc[sweepgc] in marked
      requires objs[rootgc[sweepgc]].Thread? ==>
        AllCurrent(marked, currentwhite, SetOf(objs[rootgc[sweepgc]].openupval))
      requires SweptPrefix(objs, marked, currentwhite, rootgc[..sweepgc])
      requires Swept(h0, m0, objs, marked, fixed, currentwhite)
      modifies `objs, `marked, `uvhead, `rootgc, `sweepgc
      ensures Core() && sweepgc <= |rootgc|
      ensures SweptPrefix(objs, marked, currentwhite, rootgc[..sweepgc])
      ensures |rootgc| - sweepgc + |uvhead| < |old(rootgc)| - old(sweepgc) + |old(uvhead)|
      ensures Swept(h0, m0, objs, marked, fixed, currentwhite)
    {
      hide *;
      CoreFacts();
      var x := rootgc[sweepgc];
      ghost var h, m := objs, marked;
      SurvivorsAlive(x);
      if Survives(x) {
        Whiten(x);
        StillCurrent(h, m, x);
        PrefixInHeap(sweepgc);
        PrefixSwept(h, m, objs, marked, fixed, currentwhite, rootgc[..sweepgc]);
        OpenOfThread(objs, marked, currentwhite, uvhead, x);
        OneMore(rootgc, sweepgc);
        PrefixGrows(objs, marked, currentwhite, rootgc[..sweepgc], x, rootgc[..sweepgc + 1]);
        sweepgc := sweepgc + 1;
      } else {
        FreeRoot();
      }
      SweptChain(h0, m0, h, m, objs, marked, fixed, currentwhite);
    }

    lemma StillCurrent(h: Heap, m: map<Id, Colour>, x: Id)
      requires objs == h && marked == m[x := currentwhite] && x in objs
      requires objs[x].Thread? ==> AllCurrent(m, currentwhite, SetOf(objs[x].openupval))
      ensures objs[x].Thread? ==> AllCurrent(marked, currentwhite, SetOf(objs[x].openupval))
    {
    }

    // ----- the string table -----

    /** luaS_resize: chains every string into the bucket of a new table. */
    method ResizeStrings(newsize: nat)
      requires StringsListed(objs, strt, nuse, hash) && newsize > 0
      modifies `strt
      ensures StringsListed(objs, strt, nuse, hash)
      ensures |strt| == if gcstate == SweepString then |old(strt)| else newsize
      ensures gcstate == SweepString ==> strt == old(strt)
    {
      if gcstate == SweepString {
        return;
      }
      var newhash: seq<seq<Id>> := seq(newsize, _ => []);
      hide StringsListed, Moved;
      var i := 0;
      while i < |strt|
        invariant strt == old(strt) && 0 <= i <= |strt| && |newhash| == newsize
        invariant Rehashed(objs, strt, hash, newhash, i, 0)
      {
        newhash := RehashBucket(newhash, i);
        i := i + 1;
      }
      AllRehashed(objs, strt, nuse, hash, newhash);
      strt := newhash;
    }

    /** The inner loop of luaS_resize, over the chain of one bucket. */
    method RehashBucket(newhash: seq<seq<Id>>, i: nat) returns (r: seq<seq<Id>>)
      requires StringsListed(objs, strt, nuse, hash) && i < |strt|
      requires Rehashed(objs, strt, hash, newhash, i, 0)
      ensures |r| == |newhash| && Rehashed(objs, strt, hash, r, i + 1, 0)
    {
      hide StringsListed, Moved;
      r := newhash;
      var j := 0;
      while j < |strt[i]|
        invariant 0 <= j <= |strt[i]| && |r| == |newhash|
        invariant Rehashed(objs, strt, hash, r, i, j)
      {
        var p := strt[i][j];
        StringAt(objs, strt, nuse, hash, i, j);
        var h1 := hash(objs[p].text) % |r|;
        RehashOne(objs, strt, nuse, hash, r, i, j);
        r := r[h1 := [p] + r[h1]];
        j := j + 1;
      }
      BucketDone(objs, strt, nuse, hash, r, i);
    }

    /** The string table shrinks when it is mostly empty. */
    method CheckSizes()
      requires ListsOk(objs, strt, nuse, hash, rootgc, uvhead)
      modifies `strt
      ensures ListsOk(objs, strt, nuse, hash, rootgc, uvhead)
    {
      if nuse < |strt| / 4 && |strt| > MINSTRTABSIZE * 2 {
        ResizeStrings(|strt| / 2);
      }
    }

    // ----- one step -----

    lemma CurrentIsMarkable()
      requires Core() && AllCurrent(marked, currentwhite, objs.Keys)
      ensures MarkableHeap() && marked.Keys == objs.Keys && IsWhite(currentwhite)
      ensures forall x :: x in objs ==> marked[x] == currentwhite
      ensures StrongClosed(objs, modeName, objs.Keys) && RootSet() <= objs.Keys
      ensures mainthread in objs && objs[mainthread].Thread?
    {
      forall x, y | Edge(objs, x, y)
        ensures y in objs
      {
        assert NotDead(objs, marked, fixed, currentwhite, x);
      }
      forall x, y | StrongEdge(objs, modeName, x, y)
        ensures y in objs
      {
        StrongIsEdge(objs, modeName, x, y);
      }
      forall x | x in objs
        ensures NamesAreStrings(objs, x)
      {
        assert NotDead(objs, marked, fixed, currentwhite, x);
      }
      forall r | r in RootSet()
        ensures r in objs
      {
        assert Alive(r);
      }
    }

    lemma WithinAll(e: set<Id>, s: set<Id>)
      requires MarkInv(e, {}, s)
      ensures MarkInv(e, {}, objs.Keys)
    {
      forall x, y | StrongEdge(objs, modeName, x, y)
        ensures y in objs
      {
        StrongIsEdge(objs, modeName, x, y);
      }
    }

    method StartMarking(ghost s: set<Id>)
      requires Core() && AllCurrent(marked, currentwhite, objs.Keys)
      requires StrongClosed(objs, modeName, s) && RootSet() <= s
      modifies `marked, `gray, `grayagain, `weak, `gcstate
      ensures Core() && Phase() && gcstate == Propagate
      ensures MarkInv(Stale(), {}, s)
    {
      hide *;
      CoreFacts();
      CurrentIsMarkable();
      ghost var m := marked;
      MarkRoot(s);
      MarkedCore(m, {}, s);
      EmptyStale();
      MoreStale({}, Stale(), s);
      WithinAll(Stale(), s);
      PropagatePhase();
    }

    lemma EmptyStale()
      ensures {} <= Stale()
    {
    }

    lemma PropagatePhase()
      requires MarkInv(Stale(), {}, objs.Keys) && gcstate == Propagate
      requires NonWhite(mainthread) && (registry.Ref? ==> NonWhite(registry.id))
      ensures Phase()
    {
    }

    /** Marking keeps everything alive. */
    lemma MarkedCore(m: map<Id, Colour>, e: set<Id>, s: set<Id>)
      requires HeapOk(objs, m, fixed, currentwhite) && IsWhite(currentwhite)
      requires Rooted(objs, fixed, mainthread, running, modeName)
      requires forall x :: x in RootSet() ==> NotDead(objs, m, fixed, currentwhite, x)
      requires ListsOk(objs, strt, nuse, hash, rootgc, uvhead)
      requires MarkInv(e, {}, s)
      ensures Core()
    {
      MarkedFacts(e, s);
      forall x, y | NotDead(objs, marked, fixed, currentwhite, x) && Edge(objs, x, y)
        ensures NotDead(objs, marked, fixed, currentwhite, y)
      {
        assert y in objs;
      }
    }

    lemma MarkedFacts(e: set<Id>, s: set<Id>)
      requires MarkInv(e, {}, s)
      ensures marked.Keys == objs.Keys && MarkableHeap()
      ensures forall x :: x in objs ==> marked[x] != Other(currentwhite)
      ensures forall x :: x in objs && marked[x] == Black ==> MayBeBlack(objs[x])
    {
    }

    /** A step of the mark phase while gray objects are left. */
    method StepPropagate(ghost s: set<Id>)
      requires Core() && Phase() && gcstate == Propagate && gray != []
      requires MarkInv(Stale(), {}, s)
      modifies `marked, `gray, `grayagain, `weak, `keyweak, `valueweak
      ensures Core() && Phase()
      ensures MarkInv(Stale(), {}, s)
      ensures WhiteOnes(marked) < WhiteOnes(old(marked)) ||
        (WhiteOnes(marked) == WhiteOnes(old(marked)) && |gray| < |old(gray)|)
    {
      hide *;
      ghost var e, ga, w, m := Stale(), grayagain, weak, marked;
      StaleMeans();
      MarkedAnchors();
      CoreFacts();
      PropagateMark(e, s);
      MarkedCore(m, e, s);
      AfterPropagate(e, ga, w, s);
    }

    lemma AfterPropagate(e: set<Id>, ga: seq<Id>, w: seq<Id>, s: set<Id>)
      requires MarkInv(e, {}, s) && e == OpenOnes(objs) + SetOf(ga) + SetOf(w) && gcstate == Propagate
      requires forall x :: x in ga ==> x in grayagain
      requires forall x :: x in w ==> x in weak
      requires NonWhite(mainthread) && (registry.Ref? ==> NonWhite(registry.id))
      ensures MarkInv(Stale(), {}, s) && Phase()
    {
      hide *;
      StaleGrows(e, ga, w);
      MoreStale(e, Stale(), s);
      WithinAll(Stale(), s);
      PropagatePhase();
    }

    lemma MarkedAnchors()
      requires Phase() && gcstate == Propagate
      ensures MarkInv(Stale(), {}, objs.Keys)
      ensures NonWhite(mainthread) && (registry.Ref? ==> NonWhite(registry.id))
    {
    }

    lemma StaleMeans()
      ensures Stale() == OpenOnes(objs) + SetOf(grayagain) + SetOf(weak)
    {
    }

    lemma StaleGrows(e: set<Id>, ga: seq<Id>, w: seq<Id>)
      requires e == OpenOnes(objs) + SetOf(ga) + SetOf(w)
      requires forall x :: x in ga ==> x in grayagain
      requires forall x :: x in w ==> x in weak
      ensures e <= Stale()
    {
      KeptInSet(ga, grayagain);
      KeptInSet(w, weak);
    }

    method StepSweepString()
      requires Core() && Phase() && gcstate == SweepString
      modifies `objs, `marked, `strt, `nuse, `sweepstrgc, `gcstate
      ensures Core() && Phase()
      ensures gcstate == Sweep || (gcstate == SweepString && |strt| - sweepstrgc < |old(strt)| - old(sweepstrgc))
      ensures Swept(old(objs), old(marked), objs, marked, fixed, currentwhite)
    {
      hide *;
      StringSweepFacts();
      SweepThisBucket();
      StringsAre();
      NextBucket();
    }

    lemma StringsAre()
      requires Core()
      ensures StringsListed(objs, strt, nuse, hash)
    {
    }

    method SweepThisBucket()
      requires Core() && sweepstrgc < |strt| && BucketsCurrent(marked, currentwhite, strt, sweepstrgc)
      modifies `objs, `marked, `strt, `nuse
      ensures Core() && |strt| == |old(strt)|
      ensures BucketsCurrent(marked, currentwhite, strt, sweepstrgc + 1)
      ensures Swept(old(objs), old(marked), objs, marked, fixed, currentwhite)
    {
      hide *;
      SweepBucket(sweepstrgc);
      StringsAre();
      BucketsSwept(old(objs), old(marked), objs, marked, fixed, currentwhite, old(strt), strt, sweepstrgc, nuse, hash);
    }

    /** The sweep goes on with the next bucket, or with the other objects. */
    method NextBucket()
      requires StringsListed(objs, strt, nuse, hash) && sweepgc == 0 && sweepstrgc < |strt| && gcstate == SweepString
      requires BucketsCurrent(marked, currentwhite, strt, sweepstrgc + 1)
      modifies `sweepstrgc, `gcstate
      ensures Phase() && sweepstrgc == old(sweepstrgc) + 1
      ensures gcstate == Sweep || (gcstate == SweepString && sweepstrgc < |strt|)
    {
      hide *;
      sweepstrgc := sweepstrgc + 1;
      if sweepstrgc >= |strt| {
        gcstate := Sweep;
      }
      StringPhase();
    }

    lemma StringSweepFacts()
      requires Phase() && gcstate == SweepString
      ensures sweepgc == 0 && sweepstrgc < |strt|
      ensures BucketsCurrent(marked, currentwhite, strt, sweepstrgc)
    {
    }

    lemma StringPhase()
      requires StringsListed(objs, strt, nuse, hash) && sweepgc == 0
      requires BucketsCurrent(marked, currentwhite, strt, sweepstrgc)
      requires gcstate == if sweepstrgc >= |strt| then Sweep else SweepString
      ensures Phase()
    {
      if gcstate == Sweep {
        assert rootgc[..0] == [];
        forall x | x in Strings(objs)
          ensures x in marked && marked[x] == currentwhite
        {
          var b := hash(objs[x].text) % |strt|;
          assert x in strt[b] && AllCurrent(marked, currentwhite, SetOf(strt[b]));
        }
      }
    }

    /** What is left to sweep: closing an upvalue moves it from one list to the other. */
    ghost function Left(): int
      reads `rootgc, `sweepgc, `uvhead
    {
      |rootgc| - sweepgc + |uvhead|
    }

    /** sweeplist on at most `count` objects of the main list. */
    method SweepList(count: nat)
      requires Core() && sweepgc <= |rootgc|
      requires SweptPrefix(objs, marked, currentwhite, rootgc[..sweepgc])
      modifies `objs, `marked, `uvhead, `rootgc, `sweepgc
      ensures Core() && sweepgc <= |rootgc|
      ensures SweptPrefix(objs, marked, currentwhite, rootgc[..sweepgc])
      ensures Left() <= old(Left())
      ensures count > 0 && sweepgc < |rootgc| ==> Left() < old(Left())
      ensures Swept(old(objs), old(marked), objs, marked, fixed, currentwhite)
    {
      hide *;
      CoreFacts();
      SweptSelf(objs, marked, fixed, currentwhite);
      var n := count;
      while n > 0 && sweepgc < |rootgc|
        invariant Core() && sweepgc <= |rootgc|
        invariant SweptPrefix(objs, marked, currentwhite, rootgc[..sweepgc])
        invariant Left() <= old(Left())
        invariant n <= count && (n < count ==> Left() < old(Left()))
        invariant Swept(old(objs), old(marked), objs, marked, fixed, currentwhite)
        decreases n
      {
        n := n - 1;
        SweepNext(old(objs), old(marked));
      }
    }

    method SweepNext(ghost h0: Heap, ghost m0: map<Id, Colour>)
      requires Core() && sweepgc < |rootgc|
      requires SweptPrefix(objs, marked, currentwhite, rootgc[..sweepgc])
      requires Swept(h0, m0, objs, marked, fixed, currentwhite)
      modifies `objs, `marked, `uvhead, `rootgc, `sweepgc
      ensures Core() && sweepgc <= |rootgc|
      ensures SweptPrefix(objs, marked, currentwhite, rootgc[..sweepgc])
      ensures Left() < old(Left())
      ensures Swept(h0, m0, objs, marked, fixed, currentwhite)
    {
      hide *;
      CoreFacts();
      ghost var h, m := objs, marked;
      LeftMeans();
      SweepRoot();
      LeftMeans();
      SweptChain(h0, m0, h, m, objs, marked, fixed, currentwhite);
    }

    lemma LeftMeans()
      ensures Left() == |rootgc| - sweepgc + |uvhead|
    {
    }

    method StepSweep()
      requires Core() && Phase() && gcstate == Sweep
      modifies `objs, `marked, `uvhead, `rootgc, `sweepgc, `strt, `gcstate
      ensures Core() && Phase()
      ensures gcstate == Finalize || (gcstate == Sweep && Left() < old(Left()))
      ensures Swept(old(objs), old(marked), objs, marked, fixed, currentwhite)
    {
      var count: nat := GCSWEEPMAX;
      assert count > 0;
      hide *;
      SweepFacts();
      SweepList(count);
      StringsStayCurrent(old(objs), old(marked));
      if sweepgc == |rootgc| {
        EndSweep();
      } else {
        SweepPhase();
      }
    }

    method EndSweep()
      requires Core() && sweepgc == |rootgc|
      requires SweptPrefix(objs, marked, currentwhite, rootgc[..sweepgc])
      requires AllCurrent(marked, currentwhite, Strings(objs))
      modifies `strt, `gcstate
      ensures Core() && Phase() && gcstate == Finalize
    {
      hide *;
      CoreFacts();
      CheckSizes();
      gcstate := Finalize;
      CoreAgain();
      EverythingSwept();
    }

    lemma SweepFacts()
      requires Phase() && gcstate == Sweep
      ensures sweepgc <= |rootgc| && SweptPrefix(objs, marked, currentwhite, rootgc[..sweepgc])
      ensures AllCurrent(marked, currentwhite, Strings(objs))
    {
    }

    lemma SweepPhase()
      requires gcstate == Sweep
      requires sweepgc <= |rootgc| && SweptPrefix(objs, marked, currentwhite, rootgc[..sweepgc])
      requires AllCurrent(marked, currentwhite, Strings(objs))
      ensures Phase()
    {
    }

    lemma StringsStayCurrent(h: Heap, m: map<Id, Colour>)
      requires Swept(h, m, objs, marked, fixed, currentwhite)
      requires AllCurrent(m, currentwhite, Strings(h))
      ensures AllCurrent(marked, currentwhite, Strings(objs))
    {
      SweptCurrent(h, m, objs, marked, fixed, currentwhite, Strings(h), Strings(objs));
    }

    lemma EverythingSwept()
      requires gcstate == Finalize && sweepgc == |rootgc|
      requires SweptPrefix(objs, marked, currentwhite, rootgc[..sweepgc])
      requires AllCurrent(marked, currentwhite, Strings(objs))
      requires RootsListed(objs, rootgc) && UpvalsListed(objs, uvhead)
      ensures Phase()
    {
      assert rootgc[..sweepgc] == rootgc;
      forall x | x in objs
        ensures x in marked && marked[x] == currentwhite
      {
        if IsOpen(objs[x]) {
          assert objs[x].place.thread in rootgc;
          assert x in OpenOf(objs, SetOf(rootgc));
        } else if !objs[x].Str? {
          assert x in SetOf(rootgc);
        } else {
          assert x in Strings(objs);
        }
      }
    }


    // ----- singlestep -----

    /** singlestep. `s` is any set that holds the roots and, while a collection
        marks, is closed under strong edges; the marks stay within it. */
    method SingleStep(ghost s: set<Id>) returns (ghost m: map<Id, Colour>)
      requires Core() && Phase() && RootSet() <= s
      requires gcstate == Pause ==> StrongClosed(objs, modeName, s)
      requires gcstate == Propagate ==> MarkInv(Stale(), {}, s)
      modifies this
      ensures Core() && Phase()
      ensures gcstate == Propagate ==> MarkInv(Stale(), {}, s)
      ensures fixed == old(fixed) && registry == old(registry) && mt == old(mt) && running == old(running)
      ensures ReachableKept(old(objs), RootSet(), objs)
      ensures old(gcstate) == Pause ==> gcstate == Propagate
      ensures old(gcstate) == Propagate ==>
        (gcstate == SweepString || (gcstate == Propagate &&
          (WhiteOnes(marked) < WhiteOnes(old(marked)) || (WhiteOnes(marked) == WhiteOnes(old(marked)) && |gray| < |old(gray)|))))
      ensures old(gcstate) == SweepString ==>
        (gcstate == Sweep || (gcstate == SweepString && |strt| - sweepstrgc < |old(strt)| - old(sweepstrgc)))
      ensures old(gcstate) == Sweep ==>
        (gcstate == Finalize || (gcstate == Sweep && Left() < old(Left())))
      ensures old(gcstate) == Finalize ==> gcstate == Pause
      ensures currentwhite
        == (if old(gcstate) == Propagate && gcstate == SweepString then Other(old(currentwhite)) else old(currentwhite))
      ensures gcstate == Propagate || gcstate == Pause ==> objs == old(objs)
      ensures gcstate == Pause ==> marked == old(marked)
      ensures old(gcstate) == Propagate && gcstate == SweepString ==>
        AtomicDone(old(objs), modeName, RootSet(), m, s, old(currentwhite), weak, valueweak, objs, marked)
      ensures old(gcstate) == SweepString || old(gcstate) == Sweep ==>
        Swept(old(objs), old(marked), objs, marked, fixed, currentwhite)
    {
      hide *;
      m := map[];
      match gcstate
      case Pause =>
        PauseFacts();
        StartMarking(s);
        SameHeapKept(objs, RootSet());
      case Propagate =>
        if gray != [] {
          StepPropagate(s);
          SameHeapKept(objs, RootSet());
        } else {
          MarkedAnchors();
          m := Atomic(s);
          AtomicKept(old(objs), modeName, RootSet(), m, s, old(currentwhite), weak, valueweak, objs, marked);
        }
      case Finalize =>
        PauseFacts();
        gcstate := Pause;
        PausePhase();
        SameHeapKept(objs, RootSet());
      case _ =>
        StepSweeping();
    }

    /** A step of either sweep. */
    method StepSweeping()
      requires Core() && Phase() && (gcstate == SweepString || gcstate == Sweep)
      modifies `objs, `marked, `strt, `nuse, `sweepstrgc, `gcstate, `uvhead, `rootgc, `sweepgc
      ensures Core() && Phase()
      ensures old(gcstate) == SweepString ==>
        (gcstate == Sweep || (gcstate == SweepString && |strt| - sweepstrgc < |old(strt)| - old(sweepstrgc)))
      ensures old(gcstate) == Sweep ==>
        (gcstate == Finalize || (gcstate == Sweep && Left() < old(Left())))
      ensures ReachableKept(old(objs), RootSet(), objs)
      ensures Swept(old(objs), old(marked), objs, marked, fixed, currentwhite)
    {
      hide *;
      CoreFacts();
      if gcstate == SweepString {
        StepSweepString();
      } else {
        StepSweep();
      }
      SweptKept(old(objs), old(marked), objs, marked, fixed, currentwhite, RootSet());
    }

    lemma PauseFacts()
      requires Phase() && (gcstate == Pause || gcstate == Finalize)
      ensures AllCurrent(marked, currentwhite, objs.Keys)
    {
    }

    lemma PausePhase()
      requires AllCurrent(marked, currentwhite, objs.Keys) && (gcstate == Pause || gcstate == Finalize)
      ensures Phase()
    {
    }

    // ----- a full collection -----

    /** Abandons a collection that is marking: no object is dead, so the sweep
        that follows only turns everything white again. */
    method ResetForSweep()
      requires Core() && Phase()
      modifies `sweepstrgc, `sweepgc, `gray, `grayagain, `weak, `gcstate
      ensures Core() && Phase() && gcstate != Pause && gcstate != Propagate
    {
      hide *;
      if gcstate == Pause || gcstate == Propagate {
        CoreFacts();
        Abandon();
        NothingSwept();
      }
    }

    method Abandon()
      requires Core()
      modifies `sweepstrgc, `sweepgc, `gray, `grayagain, `weak, `gcstate
      ensures Core()
      ensures gcstate == SweepString && sweepstrgc == 0 && sweepgc == 0
    {
      hide *;
      sweepstrgc := 0;
      sweepgc := 0;
      gray, grayagain, weak := [], [], [];
      gcstate := SweepString;
    }

    lemma NothingSwept()
      requires gcstate == SweepString && sweepstrgc == 0 && sweepgc == 0
      requires StringsListed(objs, strt, nuse, hash)
      ensures Phase()
    {
    }

    /** Sweeps until the next collection may start. */
    method FinishSweep()
      requires Core() && Phase() && gcstate != Pause && gcstate != Propagate
      modifies this
      ensures Core() && Phase() && gcstate == Finalize
      ensures fixed == old(fixed) && registry == old(registry) && mt == old(mt) && running == old(running)
      ensures currentwhite == old(currentwhite)
      ensures Swept(old(objs), old(marked), objs, marked, fixed, currentwhite)
    {
      hide *;
      CoreFacts();
      SweptSelf(objs, marked, fixed, currentwhite);
      while gcstate != Finalize
        invariant Core() && Phase() && gcstate != Pause && gcstate != Propagate
        invariant fixed == old(fixed) && registry == old(registry) && mt == old(mt) && running == old(running)
        invariant currentwhite == old(currentwhite)
        invariant Swept(old(objs), old(marked), objs, marked, fixed, currentwhite)
        decreases if gcstate == SweepString then 2 else if gcstate == Sweep then 1 else 0,
          if gcstate == SweepString then |strt| - sweepstrgc else Left()
      {
        CoreFacts();
        LeftMeans();
        BoundsOfSweep();
        ghost var h, m := objs, marked;
        ghost var _ := SingleStep(RootSet());
        SweptChain(old(objs), old(marked), h, m, objs, marked, fixed, currentwhite);
      }
    }

    lemma BoundsOfSweep()
      requires Phase() && (gcstate == SweepString || gcstate == Sweep)
      ensures gcstate == SweepString ==> sweepstrgc < |strt|
      ensures gcstate == Sweep ==> sweepgc <= |rootgc|
    {
    }

    /** Steps a started collection to the end of its mark phase. */
    method FinishMarking(ghost s: set<Id>) returns (ghost m: map<Id, Colour>)
      requires Core() && Phase() && gcstate == Propagate && MarkInv(Stale(), {}, s) && RootSet() <= s
      modifies this
      ensures Core() && Phase() && gcstate == SweepString
      ensures fixed == old(fixed) && registry == old(registry) && mt == old(mt) && running == old(running)
      ensures currentwhite == Other(old(currentwhite)) && RootSet() == old(RootSet())
      ensures AtomicDone(old(objs), modeName, RootSet(), m, s, old(currentwhite), weak, valueweak, objs, marked)
    {
      hide *;
      RootsAre();
      m := map[];
      while gcstate == Propagate
        invariant Core() && Phase() && (gcstate == Propagate || gcstate == SweepString)
        invariant fixed == old(fixed) && registry == old(registry) && mt == old(mt) && running == old(running)
        invariant RootSet() == old(RootSet())
        invariant gcstate == Propagate ==>
          objs == old(objs) && currentwhite == old(currentwhite) && MarkInv(Stale(), {}, s)
        invariant gcstate == SweepString ==> currentwhite == Other(old(currentwhite))
        invariant gcstate == SweepString ==>
          AtomicDone(old(objs), modeName, old(RootSet()), m, s, old(currentwhite), weak, valueweak, objs, marked)
        decreases gcstate == Propagate, WhiteOnes(marked), |gray|
      {
        m := SingleStep(s);
        RootsAre();
      }
    }

    /** The second half of luaC_fullgc: a whole collection, from a swept heap. */
    method CollectAll() returns (ghost m: map<Id, Colour>, ghost h: Heap, ghost mh: map<Id, Colour>)
      requires Core() && Phase() && gcstate == Finalize
      modifies this
      ensures Core() && Phase() && gcstate == Pause
      ensures fixed == old(fixed) && registry == old(registry) && mt == old(mt) && running == old(running)
      ensures RootSet() == old(RootSet()) && AllCurrent(marked, currentwhite, objs.Keys)
      ensures currentwhite == Other(old(currentwhite))
      ensures exists weak, vw ::
        AtomicDone(old(objs), modeName, RootSet(), m, StrongSet(old(objs), modeName, RootSet()),
        old(currentwhite), weak, vw, h, mh)
      ensures Swept(h, mh, objs, marked, fixed, currentwhite)
    {
      hide *;
      RootsAre();
      PauseFacts();
      CurrentIsMarkable();
      ghost var s := StrongSet(objs, modeName, RootSet());
      StrongSetFacts(objs, modeName, RootSet());
      StartMarking(s);
      RootsAre();
      m := FinishMarking(s);
      RootsAre();
      h, mh := objs, marked;
      ghost var wl, vw := weak, valueweak;
      assert AtomicDone(old(objs), modeName, RootSet(), m, s, old(currentwhite), wl, vw, h, mh);
      FinishSweep();
      PauseFacts();
      ghost var _ := SingleStep(RootSet());
      RootsAre();
    }

    lemma FactsForFull()
      requires Core()
      ensures IsWhite(currentwhite) && HeapOk(objs, marked, fixed, currentwhite)
      ensures forall r :: r in RootSet() ==> NotDead(objs, marked, fixed, currentwhite, r)
      ensures forall x :: x in fixed ==> x in objs && !objs[x].Table? && (objs[x].Str? || x in RootSet())
      ensures OneName(objs, modeName)
    {
    }

    /** The main thread, the running thread, the registry and the metatables of
        basic types are in `s`. */
    ghost predicate HasRoots(s: set<Id>)
      reads `registry, `mt, `running
    {
      && mainthread in s && running in s && (registry.Ref? ==> registry.id in s)
      && forall i :: 0 <= i < |mt| && mt[i].Some? ==> mt[i].value in s
    }

    lemma RootsIn(s: set<Id>)
      ensures HasRoots(s) <==> RootSet() <= s
    {
      if HasRoots(s) {
        forall x | x in RootSet()
          ensures x in s
        {
        }
      }
      forall i | 0 <= i < |mt| && mt[i].Some?
        ensures mt[i].value in RootSet()
      {
      }
    }

    /** The results of a full collection, said without marks: the survivors are
        the least set with the roots and what its members hold, and besides some
        strings and fixed objects; tables lose entries as their modes say. */
    lemma Results(h0: Heap, m0: map<Id, Colour>, cw: Colour)
      requires HeapOk(h0, m0, fixed, cw) && OneName(h0, modeName)
      requires forall r :: r in RootSet() ==> NotDead(h0, m0, fixed, cw, r)
      requires forall x :: x in fixed ==> x in h0 && (h0[x].Str? || x in RootSet())
      requires objs.Keys == Survivors(h0, modeName, RootSet(), fixed)
      requires forall x :: x in objs ==>
        x in h0 && ContentsExact(h0, modeName, StrongSet(h0, modeName, RootSet()), objs, x)
      ensures HasRoots(objs.Keys)
      ensures forall x, y :: x in objs && Holds(h0, x, y) ==> y in objs
      ensures forall s: set<Id>, x :: HasRoots(s) && HoldsClosed(h0, s) && x in objs && x in h0 && !h0[x].Str? ==> x in s
      ensures forall t :: t in objs && t in h0 && h0[t].Table? ==> KeptByMode(h0, objs, t)
    {
      hide *;
      ghost var roots := RootSet();
      assert Collected(h0, m0, fixed, cw, modeName, roots, objs) by {
        Collects(h0, m0, fixed, cw, modeName, roots, objs);
      }
      NothingElse(h0, m0, fixed, cw, modeName, roots, objs);
      forall r | r in roots
        ensures r in objs.Keys
      {
        assert r in objs;
      }
      assert RootSet() <= objs.Keys;
      RootsIn(objs.Keys);
      forall s: set<Id>, x | HasRoots(s) && HoldsClosed(h0, s) && x in objs && x in h0 && !h0[x].Str?
        ensures x in s
      {
        RootsIn(s);
      }
      forall t | t in objs && t in h0 && h0[t].Table?
        ensures KeptByMode(h0, objs, t)
      {
        TablesKept(h0, m0, fixed, cw, modeName, roots, objs, t);
      }
    }

    /** luaC_fullgc without finalizers. What is left are exactly the objects that
        were strongly reachable, the fixed ones and the strings kept by weak
        tables; of the entries of surviving tables exactly those are gone that
        refer to other objects. */
    method FullGc()
      requires Core() && Phase()
      modifies this
      ensures Core() && Phase() && gcstate == Pause
      ensures fixed == old(fixed) && registry == old(registry) && mt == old(mt) && running == old(running)
      ensures objs.Keys == Survivors(old(objs), modeName, RootSet(), fixed)
      ensures forall x :: x in objs ==>
        x in old(objs) && ContentsExact(old(objs), modeName, StrongSet(old(objs), modeName, RootSet()), objs, x)
      ensures HasRoots(objs.Keys)
      ensures forall x, y :: x in objs && Holds(old(objs), x, y) ==> y in objs
      ensures forall s: set<Id>, x ::
        HasRoots(s) && HoldsClosed(old(objs), s) && x in objs && x in old(objs) && !old(objs)[x].Str? ==> x in s
      ensures forall t :: t in objs && t in old(objs) && old(objs)[t].Table? ==> KeptByMode(old(objs), objs, t)
    {
      hide *;
      RootsAre();
      ghost var roots := RootSet();
      FactsForFull();
      ghost var h0, m0, cw := objs, marked, currentwhite;
      ResetForSweep();
      FinishSweep();
      RootsAre();
      ghost var h1, m1 := objs, marked;
      ghost var m, h2, m2 := CollectAll();
      ghost var wl, vw :| AtomicDone(h1, modeName, roots, m, StrongSet(h1, modeName, roots), cw, wl, vw, h2, m2);
      FullKeys(h0, m0, h1, m1, fixed, cw, modeName, roots, m, wl, vw, h2, m2, objs, marked);
      forall x | x in objs
        ensures x in h0 && ContentsExact(h0, modeName, StrongSet(h0, modeName, roots), objs, x)
      {
        FullContents(h0, m0, h1, m1, fixed, cw, modeName, roots, m, wl, vw, h2, m2, objs, marked, x);
      }
      Results(h0, m0, cw);
    }

    // ----- what the program does between two steps -----

    ghost predicate Anchored()
      reads `marked, `registry
    {
      NonWhite(mainthread) && (registry.Ref? ==> NonWhite(registry.id))
    }

    lemma PhaseParts()
      requires Phase()
      ensures Resting(gcstate, objs, marked, currentwhite, strt, sweepstrgc, rootgc, sweepgc)
      ensures gcstate == Propagate ==> MarkInv(Stale(), {}, objs.Keys) && Anchored()
    {
    }

    lemma PhaseAgain()
      requires Resting(gcstate, objs, marked, currentwhite, strt, sweepstrgc, rootgc, sweepgc)
      requires gcstate == Propagate ==> MarkInv(Stale(), {}, objs.Keys) && Anchored()
      ensures Phase()
    {
    }

    lemma MarkingBegins()
      requires MarkInv(Stale(), {}, objs.Keys)
      ensures Marking(objs, marked, currentwhite, gray, grayagain, weak, {})
    {
      forall x | OnList(x)
        ensures marked[x] == Gray
      {
      }
      forall x, y | x in objs && marked[x] == Black && Edge(objs, x, y)
        ensures y in marked && !IsWhite(marked[y])
      {
        assert !OnList(x) && NonWhite(x) && Clean(x);
        assert NonWhite(y);
      }
    }

    lemma MarkingEnds(busy: set<Id>)
      requires Marking(objs, marked, currentwhite, gray, grayagain, weak, busy)
      ensures MarkInv(Stale(), busy, objs.Keys)
    {
      forall x, y | StrongEdge(objs, modeName, x, y)
        ensures y in objs
        ensures x in marked && marked[x] == Black && x !in busy ==> NonWhite(y)
      {
        StrongIsEdge(objs, modeName, x, y);
      }
      assert MarkedWithin(objs.Keys);
      forall x | NonWhite(x) && x !in busy && x !in gray && x !in Stale()
        ensures Clean(x)
      {
        assert x in objs;
        assert marked[x] == Black || objs[x].Str?;
      }
    }

    /** What a write may break of the invariant: the edges of a black object,
        while objects are being marked. */
    ghost predicate Written(x: Id)
      reads this
    {
      true <==> (
        && Core()
        && Resting(gcstate, objs, marked, currentwhite, strt, sweepstrgc, rootgc, sweepgc)
        && x in objs && x in marked
        && (gcstate == Propagate ==>
          Anchored() && Marking(objs, marked, currentwhite, gray, grayagain, weak, if marked[x] == Black then {x} else {}))
      )
    }

    lemma WrittenParts(x: Id)
      requires Written(x)
      ensures Core() && x in objs && x in marked
      ensures Resting(gcstate, objs, marked, currentwhite, strt, sweepstrgc, rootgc, sweepgc)
      ensures gcstate == Propagate ==> Anchored()
      ensures gcstate == Propagate ==>
        Marking(objs, marked, currentwhite, gray, grayagain, weak, if marked[x] == Black then {x} else {})
    {
    }

    lemma WrittenAgain(x: Id)
      requires Core() && x in objs && x in marked
      requires Resting(gcstate, objs, marked, currentwhite, strt, sweepstrgc, rootgc, sweepgc)
      requires gcstate == Propagate ==> Anchored()
      requires gcstate == Propagate ==>
        Marking(objs, marked, currentwhite, gray, grayagain, weak, if marked[x] == Black then {x} else {})
      ensures Written(x)
    {
    }

    /** Stores a new value of the object `x`, without a barrier. */
    method Assign(x: Id, o: Object)
      requires Core() && Phase() && KeepsKind(objs, x, o) && NamesOk(objs, o)
      requires EdgesAlive(objs, marked, fixed, currentwhite, o)
      modifies `objs
      ensures objs == old(objs)[x := o] && Written(x)
    {
      hide *;
      CoreFacts();
      PhaseParts();
      WriteHeapOk(objs, marked, fixed, currentwhite, x, o);
      WriteLists(objs, x, o, strt, nuse, hash, rootgc, uvhead);
      WriteRooted(objs, x, o, fixed, mainthread, running, modeName);
      RestWrite(gcstate, objs, marked, currentwhite, strt, sweepstrgc, rootgc, sweepgc, x, o);
      KindThere(objs, x, o);
      if gcstate == Propagate {
        MarkingBegins();
        EdgesThere(objs, marked, fixed, currentwhite, o);
        WriteMarking(objs, marked, currentwhite, gray, grayagain, weak, x, o);
      }
      objs := objs[x := o];
      CoreAgain();
      WrittenAgain(x);
    }

    /** Where no write is unfinished, the invariant holds. */
    lemma WrittenWhole(x: Id)
      requires Written(x)
      requires gcstate == Propagate && marked[x] == Black ==> forall y :: Edge(objs, x, y) ==> NonWhite(y)
      ensures Core() && Phase()
    {
      hide *;
      WrittenParts(x);
      if gcstate == Propagate {
        if marked[x] == Black {
          NonWhiteMeans();
          CleanMarking(objs, marked, currentwhite, gray, grayagain, weak, x);
        }
        MarkingEnds({});
      }
      PhaseAgain();
    }

    lemma NonWhiteMeans()
      ensures forall y :: NonWhite(y) <==> y in marked && !IsWhite(marked[y])
    {
    }

    /** luaC_barrierf: while objects are being marked it marks the new target,
        in a sweep it makes the black object white. */
    method BarrierForward(o: Id, v: Id)
      requires Written(o) && Alive(o) && marked[o] == Black && v in objs && v in marked && IsWhite(marked[v])
      requires gcstate == Propagate ==> forall y :: Edge(objs, o, y) ==> NonWhite(y) || y == v
      modifies `marked, `gray
      ensures Core() && Phase()
      ensures forall x :: old(Alive(x)) <==> Alive(x)
    {
      hide *;
      WrittenParts(o);
      CoreFacts();
      if gcstate == Propagate {
        MarkThrough(o, v);
      } else {
        Bleach(o);
      }
    }

    method MarkThrough(o: Id, v: Id)
      requires Core() && gcstate == Propagate && Anchored()
      requires o in marked && marked[o] == Black && o in objs
      requires Marking(objs, marked, currentwhite, gray, grayagain, weak, {o})
      requires v in objs && v in marked && IsWhite(marked[v])
      requires forall y :: Edge(objs, o, y) ==> NonWhite(y) || y == v
      modifies `marked, `gray
      ensures Core() && Phase()
      ensures forall x :: old(Alive(x)) <==> Alive(x)
    {
      hide *;
      CoreFacts();
      AliveAll();
      NonWhiteMeans();
      AnchoredIs();
      ghost var m, g := marked, gray;
      MarkingEnds({o});
      NotListedBlack(o);
      ReallyMarkObject(v, Stale(), {o}, objs.Keys);
      Through(o, v, m, g);
      assert {} + {o} == {o};
      EndVisit(o, Stale(), {}, objs.Keys);
      MarkedCore(m, Stale(), objs.Keys);
      AnchoredIs();
      AnchoredMeans();
      PropagatePhase();
    }

    lemma AnchoredMeans()
      ensures Anchored() <==> NonWhite(mainthread) && (registry.Ref? ==> NonWhite(registry.id))
    {
    }

    lemma NotListedBlack(o: Id)
      requires Marking(objs, marked, currentwhite, gray, grayagain, weak, {o})
      ensures o in marked && !Listed(gray, grayagain, weak, o) && MayBeBlack(objs[o])
      ensures forall x :: x in objs ==> x in marked && marked[x] != Other(currentwhite)
    {
    }

    /** After the barrier all edges of `o` lead to marked objects. */
    lemma Through(o: Id, v: Id, m: map<Id, Colour>, g: seq<Id>)
      requires MarkStep(m, g, marked, gray)
      requires o in m && m[o] == Black && o in objs && !Listed(g, grayagain, weak, o)
      requires forall y :: Edge(objs, o, y) ==> (y in m && !IsWhite(m[y])) || y == v
      requires NonWhite(v)
      ensures o in marked && marked[o] == Black && Clean(o) && !OnList(o) && o !in weak
      ensures AnchoredIn(m) ==> AnchoredIn(marked)
      ensures IsWhite(currentwhite) && (forall x :: x in objs ==> x in m && m[x] != Other(currentwhite)) ==>
        forall x :: NotDead(objs, m, fixed, currentwhite, x) <==> Alive(x)
    {
    }

    method Bleach(o: Id)
      requires Core() && Alive(o) && gcstate != Propagate
      requires Resting(gcstate, objs, marked, currentwhite, strt, sweepstrgc, rootgc, sweepgc)
      modifies `marked
      ensures Core() && Phase()
      ensures marked == old(marked)[o := currentwhite]
      ensures forall x :: old(Alive(x)) <==> Alive(x)
    {
      hide *;
      CoreFacts();
      AliveAll();
      AliveMeans(o);
      InMarks(o);
      RestRecolour(gcstate, objs, marked, currentwhite, strt, sweepstrgc, rootgc, sweepgc, o, currentwhite);
      WhitenFacts(objs, marked, fixed, currentwhite, o);
      Whiten(o);
      AliveAll();
      PhaseAgain();
    }

    lemma AliveAll()
      ensures forall x :: Alive(x) <==> NotDead(objs, marked, fixed, currentwhite, x)
    {
    }

    lemma InMarks(o: Id)
      requires Alive(o)
      ensures o in objs && o in marked
    {
    }

    /** luaC_barrierback: the black table is put back among the gray objects. */
    method BarrierBack(t: Id)
      requires Written(t) && Alive(t) && marked[t] == Black && objs[t].Table?
      modifies `marked, `grayagain
      ensures Core() && Phase()
      ensures marked == old(marked)[t := Gray] && grayagain == [t] + old(grayagain)
      ensures forall x :: old(Alive(x)) <==> Alive(x)
    {
      hide *;
      AliveAll();
      Regrayed(t);
      marked := marked[t := Gray];
      grayagain := [t] + grayagain;
      CoreAgain();
      AliveAll();
      AnchoredIs();
      if gcstate == Propagate {
        MarkingEnds({});
      }
      PhaseAgain();
    }

    ghost predicate AnchoredIn(m: map<Id, Colour>)
      reads `registry
    {
      mainthread in m && !IsWhite(m[mainthread]) && (registry.Ref? ==> registry.id in m && !IsWhite(m[registry.id]))
    }

    lemma AnchoredIs()
      ensures Anchored() <==> AnchoredIn(marked)
    {
    }

    /** What holds when the table `t`, just written, is gray again. */
    lemma Regrayed(t: Id)
      requires Written(t) && Alive(t) && marked[t] == Black && objs[t].Table?
      ensures HeapOk(objs, marked[t := Gray], fixed, currentwhite)
      ensures Rooted(objs, fixed, mainthread, running, modeName)
      ensures forall y :: NotDead(objs, marked[t := Gray], fixed, currentwhite, y) <==>
        NotDead(objs, marked, fixed, currentwhite, y)
      ensures forall x :: x in RootSet() ==> NotDead(objs, marked, fixed, currentwhite, x)
      ensures ListsOk(objs, strt, nuse, hash, rootgc, uvhead)
      ensures Resting(gcstate, objs, marked[t := Gray], currentwhite, strt, sweepstrgc, rootgc, sweepgc)
      ensures gcstate == Propagate ==> AnchoredIn(marked[t := Gray])
      ensures gcstate == Propagate ==> Marking(objs, marked[t := Gray], currentwhite, gray, [t] + grayagain, weak, {})
    {
      AnchoredIs();
      hide *;
      WrittenParts(t);
      CoreFacts();
      AliveMeans(t);
      NotWhite(currentwhite);
      RecolourHeapOk(objs, marked, fixed, currentwhite, t, Gray);
      RestRecolour(gcstate, objs, marked, currentwhite, strt, sweepstrgc, rootgc, sweepgc, t, Gray);
      if gcstate == Propagate {
        AnchoredStays(t);
        RegrayMarking(objs, marked, currentwhite, gray, grayagain, weak, t);
      }
    }

    lemma AnchoredStays(t: Id)
      requires Anchored() && t in marked
      ensures AnchoredIn(marked[t := Gray])
    {
    }

    lemma NotWhite(cw: Colour)
      ensures Gray != Other(cw) && Black != Other(cw) && !IsWhite(Gray) && !IsWhite(Black)
      ensures IsWhite(cw) ==> Gray != cw && Black != cw
    {
    }

    /** Writes `o` over the object `x`, up to the barrier for its new target. */
    method AssignTo(x: Id, o: Object, v: Value)
      requires Core() && Phase() && Alive(x) && KeepsKind(objs, x, o) && NamesOk(objs, o)
      requires x in objs && x in marked && AddsOnly(objs, marked, fixed, currentwhite, x, o, v)
      requires v.Ref? ==> Alive(v.id)
      modifies `objs
      ensures objs == old(objs)[x := o] && Written(x) && Alive(x) && (v.Ref? ==> Alive(v.id))
      ensures gcstate == Propagate && marked[x] == Black ==> forall y :: Edge(objs, x, y) ==> NonWhite(y) || v == Ref(y)
      ensures forall y :: old(Alive(y)) <==> Alive(y)
    {
      hide *;
      AliveAll();
      CoreFacts();
      PhaseParts();
      if gcstate == Propagate && marked[x] == Black {
        MarkingBegins();
        AddsWhite(objs, marked, fixed, currentwhite, gray, grayagain, weak, x, o, v);
      }
      AddsAlive(objs, marked, fixed, currentwhite, x, o, v);
      WriteHeapOk(objs, marked, fixed, currentwhite, x, o);
      Assign(x, o);
      AliveAll();
      NonWhiteMeans();
    }

    /** A store into an object that is no table, with luaC_barrier after it. */
    method Store(x: Id, o: Object, v: Value)
      requires Core() && Phase() && Alive(x) && KeepsKind(objs, x, o) && NamesOk(objs, o) && !o.Table?
      requires x in objs && x in marked && AddsOnly(objs, marked, fixed, currentwhite, x, o, v)
      requires v.Ref? ==> Alive(v.id)
      modifies `objs, `marked, `gray
      ensures Core() && Phase()
      ensures objs == old(objs)[x := o]
      ensures forall y :: old(Alive(y)) <==> Alive(y)
    {
      hide *;
      AssignTo(x, o, v);
      WrittenParts(x);
      if v.Ref? {
        InMarks(v.id);
      }
      NonWhiteMeans();
      if v.Ref? && IsWhite(marked[v.id]) && marked[x] == Black {
        BarrierForward(x, v.id);
      } else {
        WrittenWhole(x);
      }
    }

    /** A store into a table, with luaC_barriert after it. */
    method StoreInTable(t: Id, o: Object, v: Value)
      requires Core() && Phase() && Alive(t) && KeepsKind(objs, t, o) && o.Table?
      requires t in objs && t in marked && AddsOnly(objs, marked, fixed, currentwhite, t, o, v)
      requires v.Ref? ==> Alive(v.id)
      modifies `objs, `marked, `grayagain
      ensures Core() && Phase()
      ensures objs == old(objs)[t := o]
      ensures forall y :: old(Alive(y)) <==> Alive(y)
      ensures marked[t] == Black && v.Ref? ==> NonWhite(v.id)
    {
      assert NamesOk(objs, o);
      hide *;
      AssignTo(t, o, v);
      WrittenParts(t);
      if v.Ref? {
        InMarks(v.id);
      }
      NonWhiteMeans();
      if v.Ref? && IsWhite(marked[v.id]) && marked[t] == Black {
        BarrierBack(t);
      } else {
        WrittenWhole(t);
      }
    }

    /** luaC_link and, for userdata, luaS_newudata: a new object joins the list
        of all objects at position `k`, with the current white. */
    method Insert(a: Id, o: Object, k: nat)
      requires Core() && Phase() && a !in objs && Unlisted(o)
      requires NamesOk(objs, o) && EdgesAlive(objs, marked, fixed, currentwhite, o)
      requires k <= |rootgc|
      modifies `objs, `marked, `rootgc, `sweepgc
      ensures Core() && Phase()
      ensures objs == old(objs)[a := o] && marked == old(marked)[a := currentwhite]
      ensures rootgc == old(rootgc)[..k] + [a] + old(rootgc)[k..]
      ensures forall y :: old(Alive(y)) || y == a ==> Alive(y)
    {
      hide *;
      CoreFacts();
      PhaseParts();
      AliveAll();
      var p := if k < sweepgc then sweepgc + 1 else sweepgc;
      var r := rootgc[..k] + [a] + rootgc[k..];
      UnlistedMeans(o);
      FreshIsUnused(objs, uvhead, a);
      AddHeapOk(objs, marked, fixed, currentwhite, a, o);
      AddRooted(objs, fixed, mainthread, running, modeName, a, o);
      AddToRoots(objs, rootgc, a, o, k, sweepgc);
      AddNoString(objs, strt, nuse, hash, a, o);
      AddNoUpval(objs, uvhead, a, o);
      ListsTogether(objs[a := o], strt, nuse, hash, r, uvhead);
      AddResting(gcstate, objs, marked, currentwhite, strt, strt, sweepstrgc, rootgc, sweepgc, r, p, a, o);
      if gcstate == Propagate {
        MarkingBegins();
        AddMarking(objs, marked, currentwhite, gray, grayagain, weak, fixed, a, o);
      }
      rootgc := r;
      sweepgc := p;
      Joined(a, o);
    }

    /** Adds an object to the heap whose lists already know it. */
    method Joined(a: Id, o: Object)
      requires a !in objs && marked.Keys == objs.Keys
      requires HeapOk(objs[a := o], marked[a := currentwhite], fixed, currentwhite)
      requires Rooted(objs[a := o], fixed, mainthread, running, modeName)
      requires ListsOk(objs[a := o], strt, nuse, hash, rootgc, uvhead)
      requires Resting(gcstate, objs[a := o], marked[a := currentwhite], currentwhite, strt, sweepstrgc, rootgc, sweepgc)
      requires gcstate == Propagate ==>
        Anchored() && Marking(objs[a := o], marked[a := currentwhite], currentwhite, gray, grayagain, weak, {})
      requires forall x :: x in RootSet() ==> NotDead(objs, marked, fixed, currentwhite, x)
      modifies `objs, `marked
      ensures Core() && Phase()
      ensures objs == old(objs)[a := o] && marked == old(marked)[a := currentwhite]
      ensures forall y :: old(Alive(y)) || y == a ==> Alive(y)
    {
      hide *;
      AliveAll();
      AnchoredMeans();
      NonWhiteMeans();
      StillAlive(objs, marked, fixed, currentwhite, a, o);
      objs := objs[a := o];
      marked := marked[a := currentwhite];
      CoreAgain();
      AliveAll();
      forall y | old(Alive(y)) || y == a
        ensures Alive(y)
      {
      }
      AnchoredMeans();
      NonWhiteMeans();
      if gcstate == Propagate {
        MarkingEnds({});
      }
      PhaseAgain();
    }

    // ----- interning -----

    /** changewhite on an object the last marking left behind. */
    method Resurrect(x: Id)
      requires Core() && Phase() && x in objs && x in marked && marked[x] == Other(currentwhite)
      requires EdgesAlive(objs, marked, fixed, currentwhite, objs[x]) && NamesOk(objs, objs[x])
      modifies `marked
      ensures Core() && Phase()
      ensures marked == old(marked)[x := currentwhite]
      ensures forall y :: old(Alive(y)) || y == x ==> Alive(y)
    {
      hide *;
      CoreFacts();
      PhaseParts();
      AliveAll();
      Revived(objs, marked, fixed, currentwhite, x);
      RestRecolour(gcstate, objs, marked, currentwhite, strt, sweepstrgc, rootgc, sweepgc, x, currentwhite);
      if gcstate == Propagate {
        MarkingBegins();
        NoneDead(objs, marked, currentwhite, gray, grayagain, weak, x);
      }
      assert gcstate != Propagate;
      TwoWhites(currentwhite);
      marked := marked[x := Other(marked[x])];
      CoreAgain();
      AliveAll();
      PhaseAgain();
    }

    lemma TwoWhites(cw: Colour)
      requires IsWhite(cw)
      ensures Other(Other(cw)) == cw
    {
    }

    /** Looks a text up in the chain of its hash. */
    method Lookup(text: string) returns (found: Option<Id>)
      requires Core()
      ensures found.Some? ==> found.value in objs && found.value in marked && objs[found.value] == Str(text)
      ensures found.Some? ==> forall y :: y in objs && objs[y] == Str(text) ==> y == found.value
      ensures found.None? ==> forall x :: x in objs && objs[x].Str? ==> objs[x].text != text
    {
      CoreFacts();
      StringsExist(objs, strt, nuse, hash, rootgc, uvhead);
      hide *;
      var b := hash(text) % |strt|;
      var i := 0;
      while i < |strt[b]|
        invariant 0 <= i <= |strt[b]|
        invariant forall j :: 0 <= j < i && strt[b][j] in objs && objs[strt[b][j]].Str? ==>
          objs[strt[b][j]].text != text
      {
        BucketFacts(b, i);
        if objs[strt[b][i]].text == text {
          return Some(strt[b][i]);
        }
        i := i + 1;
      }
      NotInChain(objs, strt, nuse, hash, text);
      found := None;
    }

    /** luaS_newlstr: equal texts give the same object, which may have to be
        brought back to life. */
    method Intern(text: string, a: Id) returns (x: Id)
      requires Core() && Phase() && a !in objs
      modifies `objs, `marked, `strt, `nuse
      ensures Core() && Phase()
      ensures x in objs && objs[x] == Str(text) && Alive(x)
      ensures objs == if x == a then old(objs)[a := Str(text)] else old(objs)
      ensures forall y :: y in old(objs) && old(objs)[y] == Str(text) ==> x == y
      ensures forall y :: old(Alive(y)) ==> Alive(y)
    {
      hide *;
      AliveAll();
      var found := Lookup(text);
      if found.Some? {
        x := found.value;
        if marked[x] == Other(currentwhite) {
          NoEdges(objs, marked, fixed, currentwhite, objs[x]);
          Resurrect(x);
        } else {
          NotDeadMeans(x);
        }
      } else {
        x := a;
        NewString(text, a);
      }
    }

    lemma NotDeadMeans(x: Id)
      requires x in objs && x in marked && marked[x] != Other(currentwhite)
      ensures Alive(x)
    {
    }

    /** newlstr: the new string heads its chain; a crowded table doubles. */
    method NewString(text: string, a: Id)
      requires Core() && Phase() && a !in objs
      requires forall x :: x in objs && objs[x].Str? ==> objs[x].text != text
      modifies `objs, `marked, `strt, `nuse
      ensures Core() && Phase()
      ensures objs == old(objs)[a := Str(text)]
      ensures forall y :: old(Alive(y)) || y == a ==> Alive(y)
    {
      hide *;
      ChainString(text, a);
      if nuse > |strt| && |strt| <= MAX_INT / 2 {
        GrowStrings();
      }
    }

    method GrowStrings()
      requires Core() && Phase()
      modifies `strt
      ensures Core() && Phase()
    {
      hide *;
      CoreFacts();
      PhaseParts();
      ghost var was := strt;
      StringsExist(objs, strt, nuse, hash, rootgc, uvhead);
      ResizeStrings(|strt| * 2);
      RestOtherTable(gcstate, objs, marked, currentwhite, was, sweepstrgc, rootgc, sweepgc, strt);
      ListsTogether(objs, strt, nuse, hash, rootgc, uvhead);
      CoreAgain();
      PhaseAgain();
    }

    method ChainString(text: string, a: Id)
      requires Core() && Phase() && a !in objs
      requires forall x :: x in objs && objs[x].Str? ==> objs[x].text != text
      modifies `objs, `marked, `strt, `nuse
      ensures Core() && Phase()
      ensures objs == old(objs)[a := Str(text)]
      ensures forall y :: old(Alive(y)) || y == a ==> Alive(y)
    {
      hide *;
      CoreFacts();
      AliveAll();
      ChainedLists(text, a);
      ChainedPhase(text, a);
      StringsExist(objs, strt, nuse, hash, rootgc, uvhead);
      var b := hash(text) % |strt|;
      strt := strt[b := [a] + strt[b]];
      nuse := nuse + 1;
      Joined(a, Str(text));
    }

    lemma ChainedLists(text: string, a: Id)
      requires Core() && a !in objs
      requires forall x :: x in objs && objs[x].Str? ==> objs[x].text != text
      ensures HeapOk(objs[a := Str(text)], marked[a := currentwhite], fixed, currentwhite)
      ensures Rooted(objs[a := Str(text)], fixed, mainthread, running, modeName)
      ensures strt != [] && ListsOk(objs[a := Str(text)], var b := hash(text) % |strt|; strt[b := [a] + strt[b]], nuse + 1, hash, rootgc, uvhead)
    {
      var o := Str(text);
      assert !IsOpen(o);
      hide *;
      CoreFacts();
      NoEdges(objs, marked, fixed, currentwhite, o);
      FreshIsUnused(objs, uvhead, a);
      AddHeapOk(objs, marked, fixed, currentwhite, a, o);
      AddRooted(objs, fixed, mainthread, running, modeName, a, o);
      AddNoRoot(objs, rootgc, a, o);
      AddNoUpval(objs, uvhead, a, o);
      AddString(objs, strt, nuse, hash, a, text);
      ListsTogether(objs[a := o], var b := hash(text) % |strt|; strt[b := [a] + strt[b]], nuse + 1, hash, rootgc,
        uvhead);
    }

    lemma ChainedPhase(text: string, a: Id)
      requires Core() && Phase() && a !in objs
      ensures strt != []
      ensures Resting(gcstate, objs[a := Str(text)], marked[a := currentwhite], currentwhite,
        var b := hash(text) % |strt|; strt[b := [a] + strt[b]], sweepstrgc, rootgc, sweepgc)
      ensures gcstate == Propagate ==>
        Anchored() && Marking(objs[a := Str(text)], marked[a := currentwhite], currentwhite, gray, grayagain, weak, {})
    {
      var o := Str(text);
      assert !IsOpen(o);
      hide *;
      CoreFacts();
      PhaseParts();
      RestFacts();
      NoEdges(objs, marked, fixed, currentwhite, o);
      FreshIsUnused(objs, uvhead, a);
      StringsExist(objs, strt, nuse, hash, rootgc, uvhead);
      AddResting(gcstate, objs, marked, currentwhite, strt, var b := hash(text) % |strt|; strt[b := [a] + strt[b]],
        sweepstrgc, rootgc, sweepgc, rootgc, sweepgc, a, o);
      if gcstate == Propagate {
        MarkingBegins();
        AddMarking(objs, marked, currentwhite, gray, grayagain, weak, fixed, a, o);
      }
    }

    lemma RestFacts()
      requires Resting(gcstate, objs, marked, currentwhite, strt, sweepstrgc, rootgc, sweepgc)
      ensures gcstate == SweepString ==> sweepgc == 0
      ensures gcstate == Sweep ==> sweepgc <= |rootgc|
    {
    }

    // ----- upvalues -----

    /** luaF_findupval: the open upvalue of a stack slot, found, brought back to
        life, or new. */
    method FindUpval(th: Id, slot: nat, a: Id) returns (x: Id)
      requires Core() && Phase() && a !in objs
      requires Alive(th) && th in objs && objs[th].Thread? && slot < |objs[th].stack|
      modifies `objs, `marked, `uvhead
      ensures Core() && Phase()
      ensures x in objs && objs[x] == Upval(Open(th, slot)) && Alive(x)
      ensures x != a ==> objs == old(objs)
      ensures x == a ==>
        th in objs && objs[th].Thread? && objs == Relist(old(objs), th, objs[th].openupval)[a := Upval(Open(th, slot))]
      ensures forall u :: u in old(objs) && old(objs)[u] == Upval(Open(th, slot)) ==> x == u
      ensures forall y :: old(Alive(y)) ==> Alive(y)
    {
      hide *;
      CoreFacts();
      AliveAll();
      var i := SearchLevel(th, slot);
      if i < |objs[th].openupval| && LevelAt(th, i) == slot {
        x := objs[th].openupval[i];
        EntryFacts(th, i, slot);
        if marked[x] == Other(currentwhite) {
          SlotAlive(objs, marked, fixed, currentwhite, th, slot);
          Resurrect(x);
        } else {
          NotDeadMeans(x);
        }
      } else {
        if i < |objs[th].openupval| {
          EntryFacts(th, i, slot);
        }
        x := a;
        NewUpval(th, slot, i, a);
      }
      CoreFacts();
      SameUpval(old(objs), objs, uvhead, th, objs[th].openupval, slot, a, x);
    }

    /** The loop of luaF_findupval: past the upvalues of higher levels. */
    method SearchLevel(th: Id, slot: nat) returns (i: nat)
      requires Core() && th in objs && objs[th].Thread?
      ensures i <= |objs[th].openupval|
      ensures forall j :: 0 <= j < i ==> HigherAt(th, j, slot)
      ensures i < |objs[th].openupval| ==>
        objs[th].openupval[i] in objs && IsOpen(objs[objs[th].openupval[i]]) && Level(objs, objs[th].openupval[i]) <= slot
    {
      hide *;
      CoreFacts();
      i := 0;
      while i < |objs[th].openupval| && LevelAt(th, i) > slot
        invariant i <= |objs[th].openupval|
        invariant forall j :: 0 <= j < i ==> HigherAt(th, j, slot)
      {
        EntryFacts(th, i, slot);
        i := i + 1;
      }
      if i < |objs[th].openupval| {
        EntryFacts(th, i, slot);
      }
    }

    ghost predicate HigherAt(t: Id, j: nat, slot: nat)
      requires t in objs && objs[t].Thread? && j < |objs[t].openupval|
      reads `objs
    {
      var u := objs[t].openupval[j];
      u in objs && IsOpen(objs[u]) && Level(objs, u) > slot
    }

    function LevelAt(t: Id, i: nat): nat
      requires t in objs && objs[t].Thread? && i < |objs[t].openupval|
      reads `objs
    {
      var u := objs[t].openupval[i];
      if u in objs && IsOpen(objs[u]) then Level(objs, u) else 0
    }

    lemma EntryFacts(t: Id, i: nat, slot: nat)
      requires UpvalsListed(objs, uvhead) && marked.Keys == objs.Keys
      requires t in objs && objs[t].Thread? && i < |objs[t].openupval|
      ensures objs[t].openupval[i] in objs && IsOpen(objs[objs[t].openupval[i]]) && objs[t].openupval[i] in marked
      ensures LevelAt(t, i) == Level(objs, objs[t].openupval[i])
      ensures LevelAt(t, i) == slot ==> objs[objs[t].openupval[i]] == Upval(Open(t, slot))
      ensures LevelAt(t, i) > slot ==> HigherAt(t, i, slot)
    {
      OpenEntry(t, i);
    }

    method NewUpval(th: Id, slot: nat, i: nat, a: Id)
      requires Core() && Phase() && a !in objs
      requires Alive(th) && th in objs && objs[th].Thread? && slot < |objs[th].stack| && i <= |objs[th].openupval|
      requires forall j :: 0 <= j < i ==> HigherAt(th, j, slot)
      requires i < |objs[th].openupval| ==>
        objs[th].openupval[i] in objs && IsOpen(objs[objs[th].openupval[i]]) && Level(objs, objs[th].openupval[i]) < slot
      modifies `objs, `marked, `uvhead
      ensures Core() && Phase()
      ensures th in objs && objs[th].Thread?
        && objs == Relist(old(objs), th, objs[th].openupval)[a := Upval(Open(th, slot))]
      ensures forall y :: old(Alive(y)) || y == a ==> Alive(y)
    {
      hide *;
      CoreFacts();
      PhaseParts();
      AliveAll();
      var l := objs[th].openupval[..i] + [a] + objs[th].openupval[i..];
      InsertHere(th, slot, i, a);
      FreshIsUnused(objs, uvhead, a);
      RelistFacts(objs, marked, fixed, currentwhite, th, l);
      RelistMeans(objs, th, l);
      RelistOthers(objs, fixed, mainthread, running, modeName, strt, nuse, hash, rootgc, a, th, l);
      RelistResting(gcstate, objs, marked, currentwhite, strt, sweepstrgc, rootgc, sweepgc, th, l);
      if gcstate == Propagate {
        MarkingBegins();
        RelistMarking(objs, marked, currentwhite, gray, grayagain, weak, th, l);
      }
      uvhead := [a] + uvhead;
      objs := Relist(objs, th, l);
      AliveAll();
      AddUpval(th, slot, a);
    }

    lemma InsertHere(th: Id, slot: nat, i: nat, a: Id)
      requires UpvalsListed(objs, uvhead) && a !in objs
      requires th in objs && objs[th].Thread? && slot < |objs[th].stack| && i <= |objs[th].openupval|
      requires forall j :: 0 <= j < i ==> HigherAt(th, j, slot)
      requires i < |objs[th].openupval| ==>
        objs[th].openupval[i] in objs && IsOpen(objs[objs[th].openupval[i]]) && Level(objs, objs[th].openupval[i]) < slot
      ensures UpvalsListed(Relist(objs, th, objs[th].openupval[..i] + [a] + objs[th].openupval[i..])[a := Upval(Open(th, slot))],
        [a] + uvhead)
    {
      forall j | 0 <= j < i
        ensures var u := objs[th].openupval[j]; u in objs && IsOpen(objs[u]) && Level(objs, u) > slot
      {
        assert HigherAt(th, j, slot);
      }
      InsertOpen(objs, uvhead, th, slot, i, a);
    }

    /** The new upvalue, already on the lists, becomes an object. */
    method AddUpval(th: Id, slot: nat, a: Id)
      requires HeapOk(objs, marked, fixed, currentwhite) && marked.Keys == objs.Keys
      requires Rooted(objs, fixed, mainthread, running, modeName) && Unused(objs, a) && a !in objs && a != th
      requires forall x :: x in RootSet() ==> NotDead(objs, marked, fixed, currentwhite, x)
      requires StringsListed(objs, strt, nuse, hash) && RootsListed(objs, rootgc)
      requires UpvalsListed(objs[a := Upval(Open(th, slot))], uvhead)
      requires Resting(gcstate, objs, marked, currentwhite, strt, sweepstrgc, rootgc, sweepgc)
      requires gcstate == Propagate ==> Anchored() && Marking(objs, marked, currentwhite, gray, grayagain, weak, {})
      requires NotDead(objs, marked, fixed, currentwhite, th) && th in objs && objs[th].Thread?
        && slot < |objs[th].stack|
      modifies `objs, `marked
      ensures Core() && Phase()
      ensures objs == old(objs)[a := Upval(Open(th, slot))]
      ensures forall y :: old(Alive(y)) || y == a ==> Alive(y)
    {
      var o := Upval(Open(th, slot));
      assert IsOpen(o);
      hide *;
      SlotAlive(objs, marked, fixed, currentwhite, th, slot);
      AddHeapOk(objs, marked, fixed, currentwhite, a, o);
      AddRooted(objs, fixed, mainthread, running, modeName, a, o);
      AddNoRoot(objs, rootgc, a, o);
      AddNoString(objs, strt, nuse, hash, a, o);
      ListsTogether(objs[a := o], strt, nuse, hash, rootgc, uvhead);
      RestFacts();
      AddResting(gcstate, objs, marked, currentwhite, strt, strt, sweepstrgc, rootgc, sweepgc, rootgc, sweepgc, a, o);
      if gcstate == Propagate {
        AddMarking(objs, marked, currentwhite, gray, grayagain, weak, fixed, a, o);
      }
      Joined(a, o);
    }

    lemma RelistMeans(h: Heap, t: Id, l: seq<Id>)
      requires t in h && h[t].Thread?
      ensures Relist(h, t, l) == h[t := h[t].(openupval := l)]
    {
    }

    /** One turn of luaF_close on a live upvalue: it takes its value with it and,
        when gray, becomes black or white as luaC_linkupval has it. */
    method CloseLive(th: Id)
      requires Core() && Phase() && th in objs && objs[th].Thread? && objs[th].openupval != []
      requires Alive(objs[th].openupval[0])
      requires objs[th].openupval[0] in objs && objs[objs[th].openupval[0]].Upval?
      modifies `objs, `marked, `gray, `uvhead, `rootgc, `sweepgc
      ensures Core() && Phase()
      ensures objs == CloseFirst(old(objs), th)
      ensures forall y :: old(Alive(y)) <==> Alive(y)
      ensures |uvhead| < |old(uvhead)|
    {
      hide *;
      CoreFacts();
      AliveAll();
      ghost var h := objs;
      var u := objs[th].openupval[0];
      OpenEntry(th, 0);
      InMarks(u);
      ClosingPhase(th);
      ColourOfOpen(u);
      CloseMeans(h, th);
      CloseHead(th);
      SameAlive(h, marked, objs, fixed, currentwhite);
      AliveAll();
      LinkUpval(u);
    }

    /** The invariant of the collector's state around the closing of an upvalue. */
    lemma ClosingPhase(th: Id)
      requires Core() && Phase() && th in objs && objs[th].Thread? && objs[th].openupval != []
      requires objs[th].openupval[0] in objs && objs[th].openupval[0] in marked && IsOpen(objs[objs[th].openupval[0]])
      requires objs[objs[th].openupval[0]].place.thread == th
      ensures gcstate != Propagate ==>
        Resting(gcstate, CloseFirst(objs, th), marked[objs[th].openupval[0] := currentwhite], currentwhite, strt, sweepstrgc,
          [objs[th].openupval[0]] + rootgc, if sweepgc == 0 then 0 else sweepgc + 1)
      ensures gcstate == Propagate ==> Anchored()
      ensures gcstate == Propagate && marked[objs[th].openupval[0]] == Gray ==>
        Marking(CloseFirst(objs, th), marked[objs[th].openupval[0] := Black], currentwhite, gray, grayagain, weak, {objs[th].openupval[0]})
      ensures gcstate == Propagate && marked[objs[th].openupval[0]] != Gray ==>
        Marking(CloseFirst(objs, th), marked, currentwhite, gray, grayagain, weak, {})
    {
      hide *;
      CoreFacts();
      PhaseParts();
      if gcstate == Propagate {
        MarkingBegins();
        CloseMarking(objs, marked, currentwhite, gray, grayagain, weak, th);
      } else {
        ThreadsListed();
        CloseResting(gcstate, objs, marked, currentwhite, strt, sweepstrgc, rootgc, sweepgc, th);
      }
    }

    lemma ThreadsListed()
      requires UpvalsListed(objs, uvhead)
      ensures forall u :: u in objs && IsOpen(objs[u]) ==>
        objs[u].place.thread in objs && objs[objs[u].place.thread].Thread?
    {
    }

    /** An open upvalue is never black, and when it is white and alive, its white
        is the current one. */
    lemma ColourOfOpen(u: Id)
      requires Core() && u in objs && u in marked && IsOpen(objs[u]) && Alive(u)
      ensures marked[u] == Gray || marked[u] == currentwhite
    {
    }

    lemma CloseMeans(h: Heap, t: Id)
      requires t in h && h[t].Thread? && h[t].openupval != []
      requires h[t].openupval[0] in h && IsOpen(h[h[t].openupval[0]])
      ensures var u := h[t].openupval[0];
        u in CloseFirst(h, t) && CloseFirst(h, t)[u] == Upval(Closed(ValueOf(h, u)))
      ensures CloseFirst(h, t).Keys == h.Keys
    {
    }

    /** luaC_linkupval, after the upvalue has joined the list of all objects. */
    method LinkUpval(u: Id)
      requires Core() && u in objs && u in marked && objs[u].Upval? && objs[u].place.Closed? && Alive(u)
      requires marked[u] == Gray || marked[u] == currentwhite
      requires gcstate != Propagate ==>
        Resting(gcstate, objs, marked[u := currentwhite], currentwhite, strt, sweepstrgc, rootgc, sweepgc)
      requires gcstate == Propagate ==> Anchored()
      requires gcstate == Propagate && marked[u] == Gray ==>
        Marking(objs, marked[u := Black], currentwhite, gray, grayagain, weak, {u})
      requires gcstate == Propagate && marked[u] != Gray ==>
        Marking(objs, marked, currentwhite, gray, grayagain, weak, {})
      modifies `marked, `gray
      ensures Core() && Phase()
      ensures forall y :: old(Alive(y)) <==> Alive(y)
    {
      hide *;
      CoreFacts();
      AliveAll();
      if marked[u] == Gray {
        if gcstate == Propagate {
          BlackenUpval(u);
        } else {
          Rewhiten(u);
        }
      } else {
        SameMark(marked, u);
        if gcstate == Propagate {
          MarkingEnds({});
          RestInPropagate();
        }
        PhaseAgain();
      }
    }

    lemma SameMark(m: map<Id, Colour>, u: Id)
      requires u in m
      ensures m[u := m[u]] == m
    {
    }

    lemma RestInPropagate()
      ensures gcstate == Propagate ==> Resting(gcstate, objs, marked, currentwhite, strt, sweepstrgc, rootgc, sweepgc)
    {
    }

    method Rewhiten(u: Id)
      requires Core() && Alive(u) && gcstate != Propagate
      requires Resting(gcstate, objs, marked[u := currentwhite], currentwhite, strt, sweepstrgc, rootgc, sweepgc)
      modifies `marked
      ensures Core() && Phase()
      ensures forall y :: old(Alive(y)) <==> Alive(y)
    {
      hide *;
      CoreFacts();
      AliveAll();
      WhitenFacts(objs, marked, fixed, currentwhite, u);
      Whiten(u);
      AliveAll();
      PhaseAgain();
    }

    method BlackenUpval(u: Id)
      requires Core() && u in objs && u in marked && objs[u].Upval? && objs[u].place.Closed? && Alive(u)
      requires gcstate == Propagate && Anchored() && marked[u] == Gray
      requires Marking(objs, marked[u := Black], currentwhite, gray, grayagain, weak, {u})
      modifies `marked, `gray
      ensures Core() && Phase()
      ensures forall y :: old(Alive(y)) <==> Alive(y)
    {
      hide *;
      CoreFacts();
      AliveAll();
      AnchoredMeans();
      NonWhiteMeans();
      NotWhite(currentwhite);
      ClosedFacts(u);
      RecolourHeapOk(objs, marked, fixed, currentwhite, u, Black);
      marked := marked[u := Black];
      CoreAgain();
      AliveAll();
      AnchoredMeans();
      NonWhiteMeans();
      RestInPropagate();
      assert (if marked[u] == Black then {u} else {}) == {u};
      WrittenAgain(u);
      var v := objs[u].place.v;
      if v.Ref? {
        ClosedTarget(u);
        if IsWhite(marked[v.id]) {
          BarrierForward(u, v.id);
        } else {
          WrittenWhole(u);
        }
      } else {
        WrittenWhole(u);
      }
    }

    lemma ClosedFacts(u: Id)
      requires u in objs && objs[u].Upval? && objs[u].place.Closed?
      ensures MayBeBlack(objs[u])
      ensures forall y :: Edge(objs, u, y) <==> objs[u].place.v == Ref(y)
    {
    }

    lemma ClosedTarget(u: Id)
      requires Core() && Alive(u) && u in objs && objs[u].Upval? && objs[u].place.Closed? && objs[u].place.v.Ref?
      ensures objs[u].place.v.id in objs && objs[u].place.v.id in marked
    {
      assert Edge(objs, u, objs[u].place.v.id);
      assert Alive(objs[u].place.v.id);
    }

    /** One turn of luaF_close on a dead upvalue, which goes at once. */
    method CloseDead(th: Id)
      requires Core() && Phase() && th in objs && objs[th].Thread? && objs[th].openupval != []
      requires !Alive(objs[th].openupval[0])
      modifies `objs, `marked, `uvhead
      ensures Core() && Phase()
      ensures objs == DropOpen(old(objs), th, 0, old(objs)[th].openupval[0])
      ensures forall y :: old(Alive(y)) <==> Alive(y)
      ensures |uvhead| < |old(uvhead)|
    {
      hide *;
      CoreFacts();
      PhaseParts();
      AliveAll();
      OpenEntry(th, 0);
      if gcstate == Propagate {
        MarkingBegins();
        NoneDead(objs, marked, currentwhite, gray, grayagain, weak, objs[th].openupval[0]);
        NotDeadMeans(objs[th].openupval[0]);
      }
      assert gcstate != Propagate;
      FreeOpenAt(th, 0);
      CoreFacts();
      SweptAlive(old(objs), old(marked));
      RestSwept(gcstate, old(objs), old(marked), objs, marked, fixed, currentwhite, strt, nuse, hash, sweepstrgc,
        rootgc, sweepgc);
      AliveAll();
      PhaseAgain();
    }

    lemma SweptAlive(h: Heap, m: map<Id, Colour>)
      requires Swept(h, m, objs, marked, fixed, currentwhite) && IsWhite(currentwhite)
      ensures forall x :: NotDead(h, m, fixed, currentwhite, x) <==> Alive(x)
    {
    }

    /** luaF_close. */
    method Close(th: Id, level: nat)
      requires Core() && Phase() && th in objs && objs[th].Thread?
      modifies `objs, `marked, `gray, `uvhead, `rootgc, `sweepgc
      ensures Core() && Phase()
      ensures ClosedDown(old(objs), old(marked), fixed, currentwhite, th, level, objs)
      ensures forall u ::
        u in old(objs) && IsOpen(old(objs)[u]) && old(objs)[u].place.thread == th ==>
        SlotClosed(old(objs), objs, th, level, u, old(Alive(u)))
      ensures forall y :: old(Alive(y)) <==> Alive(y)
    {
      hide *;
      CoreFacts();
      AliveAll();
      ghost var uvs := uvhead;
      ClosingStarts(objs, marked, fixed, currentwhite, th, level, uvhead);
      while objs[th].openupval != [] && LevelAt(th, 0) >= level
        invariant Core() && Phase() && th in objs && objs[th].Thread?
        invariant ClosingDown(old(objs), old(marked), fixed, currentwhite, th, level, objs)
        invariant forall y :: old(Alive(y)) <==> Alive(y)
        decreases |uvhead|
      {
        CloseOne(th, level, old(objs), old(marked));
      }
      CoreFacts();
      if objs[th].openupval != [] {
        EntryFacts(th, 0, level);
        AboveMeans(th, level);
      }
      ClosingEnds(old(objs), old(marked), fixed, currentwhite, th, level, objs, uvhead);
      ClosedMeans(old(objs), old(marked), fixed, currentwhite, th, level, objs, uvs);
    }

    lemma AboveMeans(t: Id, level: nat)
      requires UpvalsListed(objs, uvhead) && t in objs && objs[t].Thread? && objs[t].openupval != []
      ensures Above(objs, t, level, objs[t].openupval[0]) <==> LevelAt(t, 0) >= level
    {
      OpenEntry(t, 0);
    }

    method CloseOne(th: Id, level: nat, ghost h0: Heap, ghost m0: map<Id, Colour>)
      requires Core() && Phase() && th in objs && objs[th].Thread?
      requires objs[th].openupval != [] && LevelAt(th, 0) >= level
      requires ClosingDown(h0, m0, fixed, currentwhite, th, level, objs)
      requires forall y :: NotDead(h0, m0, fixed, currentwhite, y) <==> Alive(y)
      modifies `objs, `marked, `gray, `uvhead, `rootgc, `sweepgc
      ensures Core() && Phase() && th in objs && objs[th].Thread?
      ensures ClosingDown(h0, m0, fixed, currentwhite, th, level, objs)
      ensures forall y :: old(Alive(y)) <==> Alive(y)
      ensures |uvhead| < |old(uvhead)|
    {
      hide *;
      CoreFacts();
      ghost var h := objs;
      var u := objs[th].openupval[0];
      EntryFacts(th, 0, level);
      OpenEntry(th, 0);
      AboveMeans(th, level);
      SurvivorsAlive(u);
      if marked[u] != Other(currentwhite) {
        NotDeadMeans(u);
        CloseLive(th);
      } else {
        OpenNotFixed(u);
        CloseDead(th);
      }
      ClosingStep(h0, m0, fixed, currentwhite, th, level, h, objs, u);
      ClosingThere(h0, m0, fixed, currentwhite, th, level, objs);
    }

    lemma OpenNotFixed(u: Id)
      requires Core() && u in objs && u in marked && IsOpen(objs[u]) && marked[u] == Other(currentwhite)
      ensures !Alive(u)
    {
    }

    lemma ClosingThere(h: Heap, m: map<Id, Colour>, fixed: set<Id>, cw: Colour, t: Id, level: nat, h': Heap)
      requires ClosingDown(h, m, fixed, cw, t, level, h')
      ensures t in h' && h'[t].Thread?
    {
    }

    lemma SameAlive(h: Heap, m: map<Id, Colour>, h': Heap, fixed: set<Id>, cw: Colour)
      requires Swept(h, m, h', m, fixed, cw) && h'.Keys == h.Keys
      ensures forall y :: NotDead(h', m, fixed, cw, y) <==> NotDead(h, m, fixed, cw, y)
    {
    }

    // ----- the remaining unbarriered writes -----

    /** A thread's stack is written, grown and shrunk without barriers. */
    method SetStack(th: Id, stack: seq<Value>)
      requires Core() && Phase() && th in objs && objs[th].Thread?
      requires KeepsKind(objs, th, objs[th].(stack := stack))
      requires forall y :: Ref(y) in stack || objs[th].globals == Ref(y) ==> Alive(y)
      modifies `objs
      ensures Core() && Phase()
      ensures objs == old(objs)[th := old(objs)[th].(stack := stack)]
      ensures forall y :: old(Alive(y)) <==> Alive(y)
    {
      var o := objs[th].(stack := stack);
      StackEdges(o);
      assert NamesOk(objs, o);
      hide *;
      CoreFacts();
      AliveAll();
      WriteHeapOk(objs, marked, fixed, currentwhite, th, o);
      Assign(th, o);
      AliveAll();
      ThreadNotBlack(th);
      WrittenWhole(th);
    }

    lemma StackEdges(o: Object)
      requires o.Thread? && forall y :: Ref(y) in o.stack || o.globals == Ref(y) ==> Alive(y)
      ensures EdgesAlive(objs, marked, fixed, currentwhite, o)
    {
      forall y | ObjectEdge(objs, o, y)
        ensures NotDead(objs, marked, fixed, currentwhite, y)
      {
        assert Alive(y);
      }
    }

    lemma ThreadNotBlack(th: Id)
      requires Written(th) && objs[th].Thread?
      ensures marked[th] != Black
    {
    }

    /** Another thread starts to run. */
    method SwitchTo(th: Id)
      requires Core() && Phase() && Alive(th) && th in objs && objs[th].Thread?
      modifies `running
      ensures Core() && Phase() && running == th
    {
      hide *;
      CoreFacts();
      PhaseParts();
      AliveAll();
      RootsAre();
      ghost var was := running;
      running := th;
      RootedAlso(th, was);
      RootsSwitched(was);
      CoreAgain();
      PhaseAgain();
    }

    lemma RootedAlso(th: Id, was: Id)
      requires Rooted(objs, fixed, mainthread, was, modeName)
      requires th in objs && objs[th].Thread? && running == th
      ensures Rooted(objs, fixed, mainthread, running, modeName)
    {
    }

    lemma RootsSwitched(was: Id)
      requires forall x :: x in Roots(mainthread, registry, mt, was) ==> NotDead(objs, marked, fixed, currentwhite, x)
      requires NotDead(objs, marked, fixed, currentwhite, running)
      ensures forall x :: x in RootSet() ==> NotDead(objs, marked, fixed, currentwhite, x)
    {
      forall x | x in RootSet()
        ensures NotDead(objs, marked, fixed, currentwhite, x)
      {
        assert x == running || x in Roots(mainthread, registry, mt, was);
      }
    }

    /** lua_setmetatable for a basic type: a root is written, without barrier. */
    method SetBasicMeta(i: nat, meta: Option<Id>)
      requires Core() && Phase() && i < |mt| && (meta.Some? ==> Alive(meta.value))
      modifies `mt
      ensures Core() && Phase() && mt == old(mt)[i := meta]
    {
      hide *;
      CoreFacts();
      PhaseParts();
      AliveAll();
      RootsAre();
      mt := mt[i := meta];
      RootsWritten(old(mt), i, meta);
      CoreAgain();
      PhaseAgain();
    }

    lemma RootsWritten(was: seq<Option<Id>>, i: nat, meta: Option<Id>)
      requires i < |was| && mt == was[i := meta]
      requires forall x :: x in Roots(mainthread, registry, was, running) ==>
        NotDead(objs, marked, fixed, currentwhite, x)
      requires meta.Some? ==> NotDead(objs, marked, fixed, currentwhite, meta.value)
      ensures forall x :: x in RootSet() ==> NotDead(objs, marked, fixed, currentwhite, x)
    {
      forall x | x in RootSet()
        ensures NotDead(objs, marked, fixed, currentwhite, x)
      {
        assert meta == Some(x) || x in Roots(mainthread, registry, was, running);
      }
    }

    /** One step of the collector, as the program meets it. */
    method Step()
      requires Core() && Phase()
      modifies this
      ensures Core() && Phase()
      ensures ReachableKept(old(objs), RootSet(), objs)
      ensures registry == old(registry) && mt == old(mt) && running == old(running) && RootSet() == old(RootSet())
    {
      hide *;
      CoreFacts();
      PhaseParts();
      RootsAre();
      AllKeys();
      ghost var _ := SingleStep(objs.Keys);
      RootsAre();
    }

    lemma AllKeys()
      requires Core() && Phase()
      ensures RootSet() <= objs.Keys
      ensures gcstate == Pause ==> StrongClosed(objs, modeName, objs.Keys)
    {
      forall r | r in RootSet()
        ensures r in objs
      {
        assert Alive(r);
      }
      if gcstate == Pause {
        CurrentIsMarkable();
      }
    }

    // ----- a new state -----

    /** lua_newstate: a main thread, its table of globals, the registry, and the
        name of the mode field, fixed. */
    constructor (hash: string -> nat, basicTypes: nat)
      ensures Core() && Phase() && gcstate == Pause
      ensures |mt| == basicTypes && registry.Ref? && fixed == {mainthread, modeName} && objs[modeName] == Str("__mode")
      ensures |strt| == 32
    {
      var thread, globals, reg, name := 0, 1, 2, 3;
      this.hash := hash;
      mainthread, modeName, running := thread, name, thread;
      objs := map[
        thread := Thread(Ref(globals), [], []), globals := Table(None, [], []), reg := Table(None, [], []), name := Str("__mode")];
      marked := map[thread := White0, globals := White0, reg := White0, name := White0];
      fixed := {thread, name};
      currentwhite, gcstate := White0, Pause;
      gray, grayagain, weak, keyweak, valueweak := [], [], [], {}, {};
      rootgc, sweepgc := [reg, globals, thread], 0;
      strt := seq(MINSTRTABSIZE, i => if i == hash("__mode") % MINSTRTABSIZE then [name] else []);
      sweepstrgc, nuse := 0, 1;
      uvhead := [];
      registry := Ref(reg);
      mt := seq(basicTypes, _ => None);
      new;
      InitialCore(thread, globals, reg, name, basicTypes);
    }

    lemma InitialCore(thread: Id, globals: Id, reg: Id, name: Id, basicTypes: nat)
      requires thread == 0 && globals == 1 && reg == 2 && name == 3
      requires mainthread == thread && modeName == name && running == thread
      requires objs == map[
        thread := Thread(Ref(globals), [], []), globals := Table(None, [], []), reg := Table(None, [], []), name := Str("__mode")]
      requires marked == map[thread := White0, globals := White0, reg := White0, name := White0]
      requires fixed == {thread, name} && currentwhite == White0 && gcstate == Pause
      requires rootgc == [reg, globals, thread] && uvhead == [] && registry == Ref(reg) && nuse == 1
      requires strt == seq(MINSTRTABSIZE, i => if i == hash("__mode") % MINSTRTABSIZE then [name] else [])
      requires mt == seq(basicTypes, _ => None)
      ensures Core() && Phase()
    {
      assert Strings(objs) == {name};
      assert forall x :: x in RootSet() ==> x == thread || x == reg;
    }
  }
}