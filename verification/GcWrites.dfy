/** What the program's own writes, allocations and closings do to the heap and
    to the lists the collector depends on. */
module GcWrites {
  import opened GcHeap
  import opened GcLists
  import opened Wrappers

  /** `o` may take the place of the object at `x`: the same kind, the same list
      of open upvalues, and a stack that still covers them. */
  ghost predicate KeepsKind(h: Heap, x: Id, o: Object) {
    true <==> (
      x in h &&
      match h[x]
      case Str(_) => o == h[x]
      case Userdata(_, _) => o.Userdata?
      case Upval(place) => o.Upval? && (place.Open? || o.place.Open? ==> o == h[x])
      case CClosure(_, _) => o.CClosure?
      case LClosure(_, _, _) => o.LClosure?
      case Table(_, _, _) => o.Table?
      case Thread(_, _, open) =>
        o.Thread? && o.openupval == open && forall u :: u in open && u in h && IsOpen(h[u]) ==> h[u].place.slot < |o.stack|
      case Proto(_, _, _, _, _) => o.Proto?
    )
  }

  /** Whatever `o` refers to is alive. */
  ghost predicate EdgesAlive(h: Heap, m: map<Id, Colour>, fixed: set<Id>, cw: Colour, o: Object) {
    true <==> (forall y :: ObjectEdge(h, o, y) ==> NotDead(h, m, fixed, cw, y))
  }

  ghost predicate NamesOk(h: Heap, o: Object) {
    true <==> (o.Proto? ==>
      && (o.source.Some? ==> o.source.value in h && h[o.source.value].Str?)
      && (forall y :: y in o.upvalueNames ==> y in h && h[y].Str?)
      && (forall y :: y in o.localNames ==> y in h && h[y].Str?))
  }

  /** An edge after a write is an edge before it, or one of the new object. */
  lemma WriteEdge(h: Heap, x: Id, o: Object, z: Id, y: Id)
    requires KeepsKind(h, x, o) && Edge(h[x := o], z, y)
    ensures z in h && ((z != x && Edge(h, z, y)) || ObjectEdge(h, o, y))
    ensures z != x && !IsOpen(h[z]) ==> Edge(h, z, y)
    ensures z == x ==> ObjectEdge(h, o, y)
  {
  }

  lemma WriteHeapOk(h: Heap, m: map<Id, Colour>, fixed: set<Id>, cw: Colour, x: Id, o: Object)
    requires HeapOk(h, m, fixed, cw) && KeepsKind(h, x, o)
    requires NamesOk(h, o) && EdgesAlive(h, m, fixed, cw, o)
    ensures HeapOk(h[x := o], m, fixed, cw)
    ensures forall y :: NotDead(h[x := o], m, fixed, cw, y) <==> NotDead(h, m, fixed, cw, y)
  {
    var h' := h[x := o];
    forall z, y | NotDead(h', m, fixed, cw, z) && Edge(h', z, y)
      ensures NotDead(h', m, fixed, cw, y)
    {
      WriteEdge(h, x, o, z, y);
    }
    forall z | NotDead(h', m, fixed, cw, z)
      ensures NamesAreStrings(h', z)
    {
      assert z != x ==> NotDead(h, m, fixed, cw, z) && NamesAreStrings(h, z);
    }
  }

  lemma WriteLists(h: Heap, x: Id, o: Object, strt: seq<seq<Id>>, nuse: nat, hash: string -> nat, rootgc: seq<Id>,
      uvhead: seq<Id>)
    requires ListsOk(h, strt, nuse, hash, rootgc, uvhead) && KeepsKind(h, x, o)
    ensures ListsOk(h[x := o], strt, nuse, hash, rootgc, uvhead)
  {
    hide StringsListed, RootsListed, UpvalsListed, OpenList;
    var h' := h[x := o];
    assert forall z :: z in h ==> (h'[z].Str? <==> h[z].Str?) && (h[z].Str? ==> h'[z] == h[z]);
    OtherListsKept(h, h', strt, nuse, hash);
    WriteRoots(h, x, o, rootgc);
    WriteUpvals(h, x, o, uvhead);
  }

  lemma WriteRoots(h: Heap, x: Id, o: Object, rootgc: seq<Id>)
    requires RootsListed(h, rootgc) && KeepsKind(h, x, o)
    ensures RootsListed(h[x := o], rootgc)
  {
  }

  lemma WriteUpvals(h: Heap, x: Id, o: Object, uvhead: seq<Id>)
    requires UpvalsListed(h, uvhead) && KeepsKind(h, x, o)
    ensures UpvalsListed(h[x := o], uvhead)
  {
    var h' := h[x := o];
    forall t | t in h' && h'[t].Thread?
      ensures OpenList(h', t)
    {
      assert OpenList(h, t);
    }
    forall u | u in h' && IsOpen(h'[u])
      ensures var t := h'[u].place.thread;
        t in h' && h'[t].Thread? && h'[u].place.slot < |h'[t].stack| && u in h'[t].openupval
    {
      assert u in h && IsOpen(h[u]);
    }
  }

  lemma WriteRooted(h: Heap, x: Id, o: Object, fixed: set<Id>, mainthread: Id, running: Id, modeName: Id)
    requires Rooted(h, fixed, mainthread, running, modeName) && KeepsKind(h, x, o)
    ensures Rooted(h[x := o], fixed, mainthread, running, modeName)
  {
  }

  /** The part of the invariant that belongs to the states outside of marking. */
  ghost predicate Resting(st: GcState, h: Heap, m: map<Id, Colour>, cw: Colour, strt: seq<seq<Id>>, n: nat,
      rootgc: seq<Id>, p: nat)
  {
    true <==> (
      match st
      case Pause => AllCurrent(m, cw, h.Keys)
      case Finalize => AllCurrent(m, cw, h.Keys)
      case Propagate => true
      case SweepString => n < |strt| && p == 0 && BucketsCurrent(m, cw, strt, n)
      case Sweep => p <= |rootgc| && AllCurrent(m, cw, Strings(h)) && SweptPrefix(h, m, cw, rootgc[..p])
    )
  }

  lemma RestWrite(st: GcState, h: Heap, m: map<Id, Colour>, cw: Colour, strt: seq<seq<Id>>, n: nat, rootgc: seq<Id>,
      p: nat,
                  x: Id, o: Object)
    requires Resting(st, h, m, cw, strt, n, rootgc, p) && KeepsKind(h, x, o)
    ensures Resting(st, h[x := o], m, cw, strt, n, rootgc, p)
  {
    if st == Sweep {
      forall u | u in OpenOf(h[x := o], SetOf(rootgc[..p]))
        ensures u in m && m[u] == cw
      {
        assert u in OpenOf(h, SetOf(rootgc[..p]));
      }
      forall y | y in Strings(h[x := o])
        ensures y in m && m[y] == cw
      {
        assert y in Strings(h);
      }
    }
  }

  /** Recolouring an object that is not current white, or making it so. */
  lemma RestRecolour(st: GcState, h: Heap, m: map<Id, Colour>, cw: Colour, strt: seq<seq<Id>>, n: nat, rootgc: seq<Id>,
      p: nat,
                     x: Id, c: Colour)
    requires Resting(st, h, m, cw, strt, n, rootgc, p) && x in m && (m[x] != cw || c == cw)
    ensures Resting(st, h, m[x := c], cw, strt, n, rootgc, p)
  {
    if st == SweepString {
      forall b | 0 <= b < n
        ensures AllCurrent(m[x := c], cw, SetOf(strt[b]))
      {
        assert AllCurrent(m, cw, SetOf(strt[b]));
      }
    }
  }

  lemma RecolourHeapOk(h: Heap, m: map<Id, Colour>, fixed: set<Id>, cw: Colour, x: Id, c: Colour)
    requires HeapOk(h, m, fixed, cw) && NotDead(h, m, fixed, cw, x) && c != Other(cw)
    requires c == Black ==> MayBeBlack(h[x])
    ensures HeapOk(h, m[x := c], fixed, cw)
    ensures forall y :: NotDead(h, m[x := c], fixed, cw, y) <==> NotDead(h, m, fixed, cw, y)
  {
    var m' := m[x := c];
    assert forall y :: NotDead(h, m', fixed, cw, y) <==> NotDead(h, m, fixed, cw, y);
    forall y, z | NotDead(h, m', fixed, cw, y) && Edge(h, y, z)
      ensures NotDead(h, m', fixed, cw, z)
    {
      assert NotDead(h, m, fixed, cw, y);
    }
  }

  // ----- while objects are being marked -----

  ghost predicate Listed(gray: seq<Id>, grayagain: seq<Id>, weak: seq<Id>, x: Id) {
    x in gray || x in grayagain || x in weak
  }

  /** The invariant of the mark phase between two steps, but for the edges of
      the black objects in `busy`: nothing dangles, and no black object refers
      to a white one. */
  ghost predicate Marking(h: Heap, m: map<Id, Colour>, cw: Colour, gray: seq<Id>, grayagain: seq<Id>, weak: seq<Id>,
      busy: set<Id>)
  {
    true <==> (
      && (forall x, y :: Edge(h, x, y) ==> y in h)
      && (forall x :: x in h ==> NamesAreStrings(h, x))
      && m.Keys == h.Keys && IsWhite(cw)
      && (forall x :: x in h ==> m[x] != Other(cw))
      && (forall x :: x in h && m[x] == Black ==> MayBeBlack(h[x]))
      && (forall x :: x in busy ==> x in h && m[x] == Black)
      && Distinct(gray + grayagain + weak)
      && (forall x :: Listed(gray, grayagain, weak, x) ==> x in h && Listable(h[x]) && m[x] == Gray)
      && (forall x :: x in weak ==> x in h && h[x].Table?)
      && (forall x :: x in h && m[x] == Gray ==> h[x].Str? || IsOpen(h[x]) || Listed(gray, grayagain, weak, x))
      && (forall x, y :: x in h && m[x] == Black && x !in busy && Edge(h, x, y) ==> y in m && !IsWhite(m[y]))
    )
  }

  lemma WriteMarking(h: Heap, m: map<Id, Colour>, cw: Colour, gray: seq<Id>, grayagain: seq<Id>, weak: seq<Id>, x: Id,
      o: Object)
    requires Marking(h, m, cw, gray, grayagain, weak, {})
    requires KeepsKind(h, x, o) && NamesOk(h, o)
    requires forall y :: ObjectEdge(h, o, y) ==> y in h
    ensures x in m
    ensures Marking(h[x := o], m, cw, gray, grayagain, weak, if m[x] == Black then {x} else {})
  {
    var h' := h[x := o];
    assert forall z :: z in h ==> (h'[z].Str? <==> h[z].Str?) && (IsOpen(h'[z]) <==> IsOpen(h[z]));
    assert forall z :: z in h ==> (Listable(h'[z]) <==> Listable(h[z])) && (h'[z].Table? <==> h[z].Table?);
    forall z, y | Edge(h', z, y)
      ensures y in h'
      ensures z in m && m[z] == Black && z != x ==> y in m && !IsWhite(m[y])
    {
      WriteEdge(h, x, o, z, y);
    }
    forall z | z in h'
      ensures NamesAreStrings(h', z)
    {
      assert z != x ==> NamesAreStrings(h, z);
    }
  }

  /** The table `t`, black no more, goes on the second gray list. */
  lemma RegrayMarking(h: Heap, m: map<Id, Colour>, cw: Colour, gray: seq<Id>, grayagain: seq<Id>, weak: seq<Id>, t: Id)
    requires t in m && m[t] == Black && t in h && h[t].Table?
    requires Marking(h, m, cw, gray, grayagain, weak, {t})
    ensures Marking(h, m[t := Gray], cw, gray, [t] + grayagain, weak, {})
  {
    assert gray + grayagain + weak == gray + (grayagain + weak);
    InsertDistinct(gray, t, grayagain + weak);
    assert gray + ([t] + grayagain) + weak == gray + [t] + (grayagain + weak);
  }

  /** Without a white target the write was harmless. */
  lemma CleanMarking(h: Heap, m: map<Id, Colour>, cw: Colour, gray: seq<Id>, grayagain: seq<Id>, weak: seq<Id>, x: Id)
    requires Marking(h, m, cw, gray, grayagain, weak, {x})
    requires forall y :: Edge(h, x, y) ==> y in m && !IsWhite(m[y])
    ensures Marking(h, m, cw, gray, grayagain, weak, {})
  {
  }

  lemma KindThere(h: Heap, x: Id, o: Object)
    requires KeepsKind(h, x, o)
    ensures x in h && (o.Table? <==> h[x].Table?) && (IsOpen(o) <==> IsOpen(h[x]))
  {
  }

  lemma EdgesThere(h: Heap, m: map<Id, Colour>, fixed: set<Id>, cw: Colour, o: Object)
    requires EdgesAlive(h, m, fixed, cw, o)
    ensures forall y :: ObjectEdge(h, o, y) ==> y in h
  {
  }

  /** The references of `o` are those of the object it replaces, one to `v`, and
      others that need no barrier. */
  ghost predicate AddsOnly(h: Heap, m: map<Id, Colour>, fixed: set<Id>, cw: Colour, x: Id, o: Object, v: Value)
    requires x in h && x in m
  {
    true <==> (forall y :: ObjectEdge(h, o, y) ==>
      || ObjectEdge(h, h[x], y)
      || v == Ref(y)
      || (NotDead(h, m, fixed, cw, y) && (m[x] == Black ==> !IsWhite(m[y]))))
  }

  lemma AddsAlive(h: Heap, m: map<Id, Colour>, fixed: set<Id>, cw: Colour, x: Id, o: Object, v: Value)
    requires HeapOk(h, m, fixed, cw) && NotDead(h, m, fixed, cw, x) && AddsOnly(h, m, fixed, cw, x, o, v)
    requires v.Ref? ==> NotDead(h, m, fixed, cw, v.id)
    ensures EdgesAlive(h, m, fixed, cw, o)
  {
    forall y | ObjectEdge(h, o, y)
      ensures NotDead(h, m, fixed, cw, y)
    {
      assert ObjectEdge(h, h[x], y) ==> Edge(h, x, y);
    }
  }

  /** Only the new target of a black object may be white. */
  lemma AddsWhite(h: Heap, m: map<Id, Colour>, fixed: set<Id>, cw: Colour, gray: seq<Id>, grayagain: seq<Id>,
      weak: seq<Id>,
                  x: Id, o: Object, v: Value)
    requires Marking(h, m, cw, gray, grayagain, weak, {}) && x in h && x in m && m[x] == Black
    requires KeepsKind(h, x, o) && AddsOnly(h, m, fixed, cw, x, o, v)
    ensures forall y :: Edge(h[x := o], x, y) ==> (y in m && !IsWhite(m[y])) || v == Ref(y)
  {
    forall y | Edge(h[x := o], x, y)
      ensures (y in m && !IsWhite(m[y])) || v == Ref(y)
    {
      WriteEdge(h, x, o, x, y);
      assert ObjectEdge(h, h[x], y) ==> Edge(h, x, y);
    }
  }

  // ----- new objects -----

  /** A new object that is on the list of all objects only. */
  predicate Unlisted(o: Object) {
    !o.Str? && !IsOpen(o) && (o.Thread? ==> o.openupval == [])
  }

  /** No object has this address, and no open upvalue belongs to it. */
  ghost predicate Unused(h: Heap, a: Id) {
    true <==> (a !in h && forall u :: u in h && IsOpen(h[u]) ==> h[u].place.thread != a)
  }

  lemma FreshIsUnused(h: Heap, uvhead: seq<Id>, a: Id)
    requires UpvalsListed(h, uvhead) && a !in h
    ensures Unused(h, a)
  {
  }

  lemma AddEdge(h: Heap, a: Id, o: Object, z: Id, y: Id)
    requires Unused(h, a) && Edge(h[a := o], z, y)
    requires IsOpen(o) ==> o.place.thread != a
    ensures if z == a then ObjectEdge(h, o, y) else Edge(h, z, y)
  {
  }

  lemma AddHeapOk(h: Heap, m: map<Id, Colour>, fixed: set<Id>, cw: Colour, a: Id, o: Object)
    requires HeapOk(h, m, fixed, cw) && Unused(h, a)
    requires NamesOk(h, o) && EdgesAlive(h, m, fixed, cw, o)
    requires IsOpen(o) ==> o.place.thread != a
    ensures HeapOk(h[a := o], m[a := cw], fixed, cw)
  {
    var h', m' := h[a := o], m[a := cw];
    assert forall z :: NotDead(h', m', fixed, cw, z) <==> NotDead(h, m, fixed, cw, z) || z == a;
    forall z, y | NotDead(h', m', fixed, cw, z) && Edge(h', z, y)
      ensures NotDead(h', m', fixed, cw, y)
    {
      AddEdge(h, a, o, z, y);
      assert NotDead(h, m, fixed, cw, y);
    }
    forall z | NotDead(h', m', fixed, cw, z)
      ensures NamesAreStrings(h', z)
    {
      assert z != a ==> NotDead(h, m, fixed, cw, z) && NamesAreStrings(h, z);
    }
  }

  lemma StillAlive(h: Heap, m: map<Id, Colour>, fixed: set<Id>, cw: Colour, a: Id, o: Object)
    requires a !in h && m.Keys == h.Keys
    ensures forall y :: NotDead(h[a := o], m[a := cw], fixed, cw, y) <==> NotDead(h, m, fixed, cw, y) || y == a
    ensures forall y :: y in m && !IsWhite(m[y]) ==> m[a := cw][y] == m[y]
  {
    forall y
      ensures NotDead(h[a := o], m[a := cw], fixed, cw, y) <==> NotDead(h, m, fixed, cw, y) || y == a
    {
    }
  }

  lemma UnlistedMeans(o: Object)
    requires Unlisted(o)
    ensures !o.Str? && !IsOpen(o) && !(o.Upval? && o.place.Open?) && (o.Thread? ==> o.openupval == [])
  {
  }

  lemma AddRooted(h: Heap, fixed: set<Id>, mainthread: Id, running: Id, modeName: Id, a: Id, o: Object)
    requires Rooted(h, fixed, mainthread, running, modeName) && a !in h
    ensures Rooted(h[a := o], fixed, mainthread, running, modeName)
  {
  }

  /** Where the sweep position moves when an object is inserted. */
  lemma AddToRoots(h: Heap, rootgc: seq<Id>, a: Id, o: Object, k: nat, p: nat)
    requires RootsListed(h, rootgc) && a !in h && Unlisted(o) && k <= |rootgc|
    ensures RootsListed(h[a := o], rootgc[..k] + [a] + rootgc[k..])
    ensures p <= |rootgc| ==>
      forall x :: x in (rootgc[..k] + [a] + rootgc[k..])[..if k < p then p + 1 else p] ==> x == a || x in rootgc[..p]
  {
    var r := rootgc[..k] + [a] + rootgc[k..];
    assert rootgc == rootgc[..k] + rootgc[k..];
    InsertDistinct(rootgc[..k], a, rootgc[k..]);
    assert forall x :: x in r <==> x == a || x in rootgc;
    if p <= |rootgc| {
      if k < p {
        assert r[..p + 1] == rootgc[..k] + [a] + rootgc[k..p];
        assert rootgc[..p] == rootgc[..k] + rootgc[k..p];
      } else {
        assert r[..p] == rootgc[..p];
      }
    }
  }

  lemma AddNoString(h: Heap, strt: seq<seq<Id>>, nuse: nat, hash: string -> nat, a: Id, o: Object)
    requires StringsListed(h, strt, nuse, hash) && a !in h && !o.Str?
    ensures StringsListed(h[a := o], strt, nuse, hash)
  {
    OtherListsKept(h, h[a := o], strt, nuse, hash);
  }

  lemma AddNoUpval(h: Heap, uvhead: seq<Id>, a: Id, o: Object)
    requires UpvalsListed(h, uvhead) && a !in h && !IsOpen(o) && (o.Thread? ==> o.openupval == [])
    ensures UpvalsListed(h[a := o], uvhead)
  {
    var h' := h[a := o];
    forall t | t in h' && h'[t].Thread?
      ensures OpenList(h', t)
    {
      assert t != a ==> OpenList(h, t);
    }
    forall u | u in h' && IsOpen(h'[u])
      ensures var t := h'[u].place.thread;
        t in h' && h'[t].Thread? && h'[u].place.slot < |h'[t].stack| && u in h'[t].openupval
    {
      assert u in h && IsOpen(h[u]);
    }
  }

  lemma AddResting(st: GcState, h: Heap, m: map<Id, Colour>, cw: Colour, strt: seq<seq<Id>>, strt': seq<seq<Id>>,
      n: nat,
                   rootgc: seq<Id>, p: nat, rootgc': seq<Id>, p': nat, a: Id, o: Object)
    requires Resting(st, h, m, cw, strt, n, rootgc, p) && Unused(h, a)
    requires st == SweepString ==> |strt'| == |strt| && p' == 0
    requires st == SweepString ==> forall b, x :: 0 <= b < |strt| && x in strt'[b] ==> x == a || x in strt[b]
    requires st == Sweep ==> p' <= |rootgc'| && forall x :: x in rootgc'[..p'] ==> x == a || x in rootgc[..p]
    ensures Resting(st, h[a := o], m[a := cw], cw, strt', n, rootgc', p')
  {
    var h', m' := h[a := o], m[a := cw];
    if st == SweepString {
      forall b | 0 <= b < n
        ensures AllCurrent(m', cw, SetOf(strt'[b]))
      {
        assert AllCurrent(m, cw, SetOf(strt[b]));
      }
    } else if st == Sweep {
      forall y | y in Strings(h')
        ensures y in m' && m'[y] == cw
      {
        assert y == a || y in Strings(h);
      }
      forall y | y in SetOf(rootgc'[..p'])
        ensures y in m' && m'[y] == cw
      {
        assert y == a || y in SetOf(rootgc[..p]);
      }
      forall u | u in OpenOf(h', SetOf(rootgc'[..p']))
        ensures u in m' && m'[u] == cw
      {
        assert u == a || u in OpenOf(h, SetOf(rootgc[..p]));
      }
    }
  }

  lemma AddMarking(h: Heap, m: map<Id, Colour>, cw: Colour, gray: seq<Id>, grayagain: seq<Id>, weak: seq<Id>,
      fixed: set<Id>,
                   a: Id, o: Object)
    requires Marking(h, m, cw, gray, grayagain, weak, {}) && Unused(h, a)
    requires NamesOk(h, o) && EdgesAlive(h, m, fixed, cw, o)
    requires IsOpen(o) ==> o.place.thread != a
    ensures Marking(h[a := o], m[a := cw], cw, gray, grayagain, weak, {})
  {
    var h', m' := h[a := o], m[a := cw];
    forall z, y | Edge(h', z, y)
      ensures y in h'
      ensures z in m' && m'[z] == Black ==> y in m' && !IsWhite(m'[y])
    {
      AddEdge(h, a, o, z, y);
      if z == a {
        assert NotDead(h, m, fixed, cw, y);
      } else {
        assert Edge(h, z, y);
      }
    }
    forall z | z in h'
      ensures NamesAreStrings(h', z)
    {
      assert z != a ==> NamesAreStrings(h, z);
    }
  }

  lemma AddNoRoot(h: Heap, rootgc: seq<Id>, a: Id, o: Object)
    requires RootsListed(h, rootgc) && a !in h && (o.Str? || IsOpen(o))
    ensures RootsListed(h[a := o], rootgc)
  {
  }

  // ----- strings -----

  lemma AddString(h: Heap, strt: seq<seq<Id>>, nuse: nat, hash: string -> nat, a: Id, text: string)
    requires StringsListed(h, strt, nuse, hash) && a !in h
    requires forall x :: x in h && h[x].Str? ==> h[x].text != text
    ensures |strt| > 0
    ensures var b := hash(text) % |strt|;
      StringsListed(h[a := Str(text)], strt[b := [a] + strt[b]], nuse + 1, hash)
  {
    var b := hash(text) % |strt|;
    var h', strt' := h[a := Str(text)], strt[b := [a] + strt[b]];
    assert Strings(h') == Strings(h) + {a};
    assert a !in strt[b];
    assert forall c, x :: 0 <= c < |strt'| && x in strt'[c] <==>
      0 <= c < |strt| && (x in strt[c] || (c == b && x == a));
    forall c | 0 <= c < |strt'|
      ensures Distinct(strt'[c])
    {
      assert Distinct(strt[c]);
    }
  }

  /** The chain of a text's hash is the place to look for it. */
  lemma NotInChain(h: Heap, strt: seq<seq<Id>>, nuse: nat, hash: string -> nat, text: string)
    requires StringsListed(h, strt, nuse, hash) && |strt| > 0
    requires forall x :: x in strt[hash(text) % |strt|] && x in h && h[x].Str? ==> h[x].text != text
    ensures forall x :: x in h && h[x].Str? ==> h[x].text != text
  {
  }

  lemma RestOtherTable(st: GcState, h: Heap, m: map<Id, Colour>, cw: Colour, strt: seq<seq<Id>>, n: nat,
      rootgc: seq<Id>, p: nat,
                       strt': seq<seq<Id>>)
    requires Resting(st, h, m, cw, strt, n, rootgc, p) && (st == SweepString ==> strt' == strt)
    ensures Resting(st, h, m, cw, strt', n, rootgc, p)
  {
  }

  /** A dead object comes back to life when it refers to nothing dead. */
  lemma Revived(h: Heap, m: map<Id, Colour>, fixed: set<Id>, cw: Colour, x: Id)
    requires HeapOk(h, m, fixed, cw) && x in h && EdgesAlive(h, m, fixed, cw, h[x]) && NamesOk(h, h[x])
    ensures HeapOk(h, m[x := cw], fixed, cw)
    ensures forall y :: NotDead(h, m[x := cw], fixed, cw, y) <==> NotDead(h, m, fixed, cw, y) || y == x
  {
    var m' := m[x := cw];
    assert m'.Keys == h.Keys;
    forall y
      ensures NotDead(h, m', fixed, cw, y) <==> NotDead(h, m, fixed, cw, y) || y == x
    {
    }
    forall y, z | NotDead(h, m', fixed, cw, y) && Edge(h, y, z)
      ensures NotDead(h, m', fixed, cw, z)
    {
      assert y == x || NotDead(h, m, fixed, cw, y);
    }
    forall y | NotDead(h, m', fixed, cw, y)
      ensures NamesAreStrings(h, y)
    {
      assert y == x || NotDead(h, m, fixed, cw, y);
    }
  }

  lemma NoEdges(h: Heap, m: map<Id, Colour>, fixed: set<Id>, cw: Colour, o: Object)
    requires o.Str?
    ensures EdgesAlive(h, m, fixed, cw, o) && NamesOk(h, o)
  {
  }

  lemma NoneDead(h: Heap, m: map<Id, Colour>, cw: Colour, gray: seq<Id>, grayagain: seq<Id>, weak: seq<Id>, x: Id)
    requires Marking(h, m, cw, gray, grayagain, weak, {}) && x in h
    ensures x in m && m[x] != Other(cw)
  {
  }

  // ----- open upvalues -----

  function Relist(h: Heap, t: Id, l: seq<Id>): Heap
    requires t in h && h[t].Thread?
  {
    h[t := h[t].(openupval := l)]
  }

  lemma RelistEdge(h: Heap, t: Id, l: seq<Id>, z: Id, y: Id)
    requires t in h && h[t].Thread?
    ensures Edge(Relist(h, t, l), z, y) <==> Edge(h, z, y)
  {
  }

  lemma RelistResting(st: GcState, h: Heap, m: map<Id, Colour>, cw: Colour, strt: seq<seq<Id>>, n: nat, rootgc: seq<Id>,
      p: nat,
                      t: Id, l: seq<Id>)
    requires Resting(st, h, m, cw, strt, n, rootgc, p) && t in h && h[t].Thread?
    ensures Resting(st, Relist(h, t, l), m, cw, strt, n, rootgc, p)
  {
    var h' := Relist(h, t, l);
    if st == Sweep {
      forall u | u in OpenOf(h', SetOf(rootgc[..p]))
        ensures u in m && m[u] == cw
      {
        assert u in OpenOf(h, SetOf(rootgc[..p]));
      }
      forall y | y in Strings(h')
        ensures y in m && m[y] == cw
      {
        assert y in Strings(h);
      }
    }
  }

  lemma RelistMarking(h: Heap, m: map<Id, Colour>, cw: Colour, gray: seq<Id>, grayagain: seq<Id>, weak: seq<Id>, t: Id,
      l: seq<Id>)
    requires Marking(h, m, cw, gray, grayagain, weak, {}) && t in h && h[t].Thread?
    ensures Marking(Relist(h, t, l), m, cw, gray, grayagain, weak, {})
  {
    var h' := Relist(h, t, l);
    forall z, y | Edge(h', z, y)
      ensures Edge(h, z, y)
    {
      RelistEdge(h, t, l, z, y);
    }
    forall z | z in h'
      ensures NamesAreStrings(h', z)
    {
      assert z != t ==> NamesAreStrings(h, z);
    }
  }

  lemma RelistOthers(h: Heap, fixed: set<Id>, mainthread: Id, running: Id, modeName: Id,
                     strt: seq<seq<Id>>, nuse: nat, hash: string -> nat, rootgc: seq<Id>, a: Id, t: Id, l: seq<Id>)
    requires Rooted(h, fixed, mainthread, running, modeName)
    requires StringsListed(h, strt, nuse, hash) && RootsListed(h, rootgc) && Unused(h, a)
    requires t in h && h[t].Thread?
    ensures Rooted(Relist(h, t, l), fixed, mainthread, running, modeName)
    ensures StringsListed(Relist(h, t, l), strt, nuse, hash) && RootsListed(Relist(h, t, l), rootgc)
      && Unused(Relist(h, t, l), a)
  {
    OtherListsKept(h, Relist(h, t, l), strt, nuse, hash);
  }

  /** A new open upvalue in its place of the thread's list. */
  lemma InsertOpen(h: Heap, uvhead: seq<Id>, t: Id, slot: nat, i: nat, a: Id)
    requires UpvalsListed(h, uvhead) && a !in h
    requires t in h && h[t].Thread? && slot < |h[t].stack| && i <= |h[t].openupval|
    requires forall j :: 0 <= j < i ==>
      h[t].openupval[j] in h && IsOpen(h[h[t].openupval[j]]) && Level(h, h[t].openupval[j]) > slot
    requires i < |h[t].openupval| ==>
      h[t].openupval[i] in h && IsOpen(h[h[t].openupval[i]]) && Level(h, h[t].openupval[i]) < slot
    ensures UpvalsListed(Relist(h, t, h[t].openupval[..i] + [a] + h[t].openupval[i..])[a := Upval(Open(t, slot))], [a] + uvhead)
  {
    var l := h[t].openupval;
    var l' := l[..i] + [a] + l[i..];
    var h' := Relist(h, t, l')[a := Upval(Open(t, slot))];
    assert OpenList(h, t);
    assert l == l[..i] + l[i..];
    InsertOpenList(h, t, slot, i, a, h', l');
    forall t' | t' in h' && h'[t'].Thread? && t' != t
      ensures OpenList(h', t')
    {
      assert OpenList(h, t');
    }
    forall u | u in h' && IsOpen(h'[u])
      ensures var t' := h'[u].place.thread;
        t' in h' && h'[t'].Thread? && h'[u].place.slot < |h'[t'].stack| && u in h'[t'].openupval
    {
      assert u == a || (u in h && IsOpen(h[u]));
    }
  }

  lemma InsertOpenList(h: Heap, t: Id, slot: nat, i: nat, a: Id, h': Heap, l': seq<Id>)
    requires t in h && h[t].Thread? && i <= |h[t].openupval| && OpenList(h, t) && a !in h
    requires l' == h[t].openupval[..i] + [a] + h[t].openupval[i..]
    requires h' == Relist(h, t, l')[a := Upval(Open(t, slot))]
    requires forall j :: 0 <= j < i ==>
      h[t].openupval[j] in h && IsOpen(h[h[t].openupval[j]]) && Level(h, h[t].openupval[j]) > slot
    requires i < |h[t].openupval| ==>
      h[t].openupval[i] in h && IsOpen(h[h[t].openupval[i]]) && Level(h, h[t].openupval[i]) < slot
    ensures OpenList(h', t)
  {
    var l := h[t].openupval;
    forall j | 0 <= j < |l'|
      ensures l'[j] in h' && IsOpen(h'[l'[j]]) && h'[l'[j]].place.thread == t
      ensures j != i ==> l'[j] == l[if j < i then j else j - 1] && h'[l'[j]] == h[l'[j]]
    {
      if j != i {
        assert l'[j] == l[if j < i then j else j - 1] && l'[j] in l;
      }
    }
    forall j, k | 0 <= j < k < |l'|
      ensures Level(h', l'[j]) > Level(h', l'[k])
    {
      if k > i {
        assert k - 1 == i || Level(h, l[i]) > Level(h, l[k - 1]);
      }
    }
  }

  /** At most one open upvalue belongs to a stack slot. */
  lemma OneForEachSlot(h: Heap, uvhead: seq<Id>, u: Id, v: Id)
    requires UpvalsListed(h, uvhead) && u in h && v in h && IsOpen(h[u]) && h[v] == h[u]
    ensures u == v
  {
    var t := h[u].place.thread;
    assert OpenList(h, t);
    var i :| 0 <= i < |h[t].openupval| && h[t].openupval[i] == u;
    var j :| 0 <= j < |h[t].openupval| && h[t].openupval[j] == v;
    assert i < j ==> Level(h, u) > Level(h, v);
    assert j < i ==> Level(h, v) > Level(h, u);
  }

  /** An upvalue that was open for the slot is the one there is now. */
  lemma SameUpval(h: Heap, h': Heap, uvhead: seq<Id>, th: Id, l: seq<Id>, slot: nat, a: Id, x: Id)
    requires UpvalsListed(h', uvhead) && a !in h && th in h && h[th].Thread?
    requires h' == h || h' == Relist(h, th, l)[a := Upval(Open(th, slot))]
    requires x in h' && h'[x] == Upval(Open(th, slot))
    ensures forall u :: u in h && h[u] == Upval(Open(th, slot)) ==> x == u
  {
    forall u | u in h && h[u] == Upval(Open(th, slot))
      ensures x == u
    {
      OneForEachSlot(h', uvhead, x, u);
    }
  }

  lemma SlotAlive(h: Heap, m: map<Id, Colour>, fixed: set<Id>, cw: Colour, t: Id, slot: nat)
    requires HeapOk(h, m, fixed, cw) && NotDead(h, m, fixed, cw, t)
    requires h[t].Thread? && slot < |h[t].stack|
    ensures EdgesAlive(h, m, fixed, cw, Upval(Open(t, slot))) && NamesOk(h, Upval(Open(t, slot)))
  {
    forall y | ObjectEdge(h, Upval(Open(t, slot)), y)
      ensures NotDead(h, m, fixed, cw, y)
    {
      assert Edge(h, t, y);
    }
  }

  lemma CloseEdge(h: Heap, t: Id, z: Id, y: Id)
    requires t in h && h[t].Thread? && h[t].openupval != []
    requires h[t].openupval[0] in h && IsOpen(h[h[t].openupval[0]]) && h[h[t].openupval[0]].place.thread == t
    ensures Edge(CloseFirst(h, t), z, y) <==> Edge(h, z, y)
  {
  }

  /** luaC_linkupval while objects are being marked: a gray upvalue becomes black. */
  lemma CloseMarking(h: Heap, m: map<Id, Colour>, cw: Colour, gray: seq<Id>, grayagain: seq<Id>, weak: seq<Id>, t: Id)
    requires Marking(h, m, cw, gray, grayagain, weak, {})
    requires t in h && h[t].Thread? && h[t].openupval != []
    requires h[t].openupval[0] in h && IsOpen(h[h[t].openupval[0]]) && h[h[t].openupval[0]].place.thread == t
    ensures h[t].openupval[0] in m
    ensures m[h[t].openupval[0]] == Gray ==>
      Marking(CloseFirst(h, t), m[h[t].openupval[0] := Black], cw, gray, grayagain, weak, {h[t].openupval[0]})
    ensures m[h[t].openupval[0]] != Gray ==> Marking(CloseFirst(h, t), m, cw, gray, grayagain, weak, {})
  {
    var u, h' := h[t].openupval[0], CloseFirst(h, t);
    forall z, y | Edge(h', z, y)
      ensures Edge(h, z, y)
    {
      CloseEdge(h, t, z, y);
    }
    forall z | z in h'
      ensures NamesAreStrings(h', z)
    {
      assert NamesAreStrings(h, z);
    }
    GrayMarking(h, m, cw, gray, grayagain, weak, u, h');
    WhiteMarking(h, m, cw, gray, grayagain, weak, u, h');
  }

  /** An upvalue that is closed leaves the other objects to the collector as
      they were. */
  ghost predicate OnlyCloses(h: Heap, u: Id, h': Heap) {
    true <==> (
      && u in h && h[u].Upval? && h'.Keys == h.Keys && h'[u].Upval? && !IsOpen(h'[u])
      && (forall z :: z in h && z != u ==> h'[z] == h[z] || (h[z].Thread? && h'[z].Thread?))
      && (forall z, y :: Edge(h', z, y) ==> Edge(h, z, y))
      && (forall z :: z in h' ==> NamesAreStrings(h', z))
    )
  }

  lemma GrayMarking(h: Heap, m: map<Id, Colour>, cw: Colour, gray: seq<Id>, grayagain: seq<Id>, weak: seq<Id>, u: Id,
      h': Heap)
    requires Marking(h, m, cw, gray, grayagain, weak, {}) && OnlyCloses(h, u, h')
    ensures u in m && (m[u] == Gray ==> Marking(h', m[u := Black], cw, gray, grayagain, weak, {u}))
  {
  }

  lemma WhiteMarking(h: Heap, m: map<Id, Colour>, cw: Colour, gray: seq<Id>, grayagain: seq<Id>, weak: seq<Id>, u: Id,
      h': Heap)
    requires Marking(h, m, cw, gray, grayagain, weak, {}) && OnlyCloses(h, u, h') && IsOpen(h[u])
    ensures u in m && (m[u] != Gray ==> Marking(h', m, cw, gray, grayagain, weak, {}))
  {
  }

  /** Outside of marking it becomes white, wherever the sweep is. */
  lemma CloseResting(st: GcState, h: Heap, m: map<Id, Colour>, cw: Colour, strt: seq<seq<Id>>, n: nat, rootgc: seq<Id>,
      p: nat, t: Id)
    requires Resting(st, h, m, cw, strt, n, rootgc, p)
    requires t in h && h[t].Thread? && h[t].openupval != []
    requires h[t].openupval[0] in h && IsOpen(h[h[t].openupval[0]])
    requires forall u :: u in h && IsOpen(h[u]) ==> h[u].place.thread in h && h[h[u].place.thread].Thread?
    ensures Resting(st, CloseFirst(h, t), m[h[t].openupval[0] := cw], cw, strt, n,
      [h[t].openupval[0]] + rootgc, if p == 0 then 0 else p + 1)
  {
    var u, h' := h[t].openupval[0], CloseFirst(h, t);
    if st == SweepString {
      forall b | 0 <= b < n
        ensures AllCurrent(m[u := cw], cw, SetOf(strt[b]))
      {
        assert AllCurrent(m, cw, SetOf(strt[b]));
      }
    } else if st == Sweep {
      var r, p' := [u] + rootgc, if p == 0 then 0 else p + 1;
      assert forall x :: x in r[..p'] ==> x == u || x in rootgc[..p];
      forall y | y in Strings(h')
        ensures y in m && m[y] == cw
      {
        assert y in Strings(h);
      }
      forall w | w in OpenOf(h', SetOf(r[..p']))
        ensures w in m && m[w] == cw
      {
        assert w in OpenOf(h, SetOf(rootgc[..p]));
      }
    }
  }

  /** What a sweep step leaves of the state between steps. */
  lemma RestSwept(st: GcState, h: Heap, m: map<Id, Colour>, h': Heap, m': map<Id, Colour>, fixed: set<Id>, cw: Colour,
                  strt: seq<seq<Id>>, nuse: nat, hash: string -> nat, n: nat, rootgc: seq<Id>, p: nat)
    requires Resting(st, h, m, cw, strt, n, rootgc, p) && Swept(h, m, h', m', fixed, cw)
    requires StringsListed(h', strt, nuse, hash) && RootsListed(h', rootgc)
    ensures Resting(st, h', m', cw, strt, n, rootgc, p)
  {
    if st == SweepString {
      forall b | 0 <= b < n
        ensures AllCurrent(m', cw, SetOf(strt[b]))
      {
        SweptCurrent(h, m, h', m', fixed, cw, SetOf(strt[b]), SetOf(strt[b]));
      }
    } else if st == Sweep {
      forall x | x in rootgc[..p]
        ensures x in h'
      {
        assert x in rootgc;
      }
      PrefixSwept(h, m, h', m', fixed, cw, rootgc[..p]);
      SweptCurrent(h, m, h', m', fixed, cw, Strings(h), Strings(h'));
    }
  }

  /** luaF_close at a level: of the open upvalues of `t` at or above it, those
      that are alive keep their value and are open no more, and the dead ones
      are gone; nothing else changed. */
  ghost predicate ClosedDown(h: Heap, m: map<Id, Colour>, fixed: set<Id>, cw: Colour, t: Id, level: nat, h': Heap) {
    true <==> (
      && t in h && h[t].Thread? && t in h' && h'[t].Thread? && h'[t] == h[t].(openupval := h'[t].openupval)
      && (forall x :: x in h' ==> x in h)
      && (forall x :: x in h && x != t && !Above(h, t, level, x) ==> x in h' && h'[x] == h[x])
      && (forall u :: u in h && Above(h, t, level, u) ==>
        if NotDead(h, m, fixed, cw, u) then u in h' && h'[u] == Upval(Closed(ValueOf(h, u))) else u !in h')
    )
  }

  predicate Above(h: Heap, t: Id, level: nat, x: Id) {
    x in h && IsOpen(h[x]) && h[x].place.thread == t && h[x].place.slot >= level
  }

  /** An open upvalue of `t` before a close at `level`: below it stays open, from
      it on it is closed with the value of its slot, or gone if it was dead. */
  ghost predicate SlotClosed(h: Heap, h': Heap, t: Id, level: nat, u: Id, alive: bool)
    requires u in h && t in h && h[t].Thread? && IsOpen(h[u]) && h[u].place.thread == t
  {
    var slot := h[u].place.slot;
    && slot < |h[t].stack|
    && (slot < level ==> u in h' && h'[u] == h[u])
    && (slot >= level && alive ==> u in h' && h'[u] == Upval(Closed(h[t].stack[slot])))
    && (slot >= level && !alive ==> u !in h')
  }

  lemma ClosedMeans(h: Heap, m: map<Id, Colour>, fixed: set<Id>, cw: Colour, t: Id, level: nat, h': Heap,
      uvhead: seq<Id>)
    requires ClosedDown(h, m, fixed, cw, t, level, h') && UpvalsListed(h, uvhead) && t in h && h[t].Thread?
    ensures forall u :: u in h && IsOpen(h[u]) && h[u].place.thread == t ==>
      SlotClosed(h, h', t, level, u, NotDead(h, m, fixed, cw, u))
  {
  }

  /** The same, while upvalues are left on the thread's list. */
  ghost predicate ClosingDown(h: Heap, m: map<Id, Colour>, fixed: set<Id>, cw: Colour, t: Id, level: nat, h': Heap) {
    true <==> (
      && t in h && h[t].Thread? && t in h' && h'[t].Thread? && h'[t] == h[t].(openupval := h'[t].openupval)
      && (forall x :: x in h' ==> x in h)
      && (forall x :: x in h && x != t && (!Above(h, t, level, x) || x in h'[t].openupval) ==> x in h' && h'[x] == h[x])
      && (forall u :: u in h && Above(h, t, level, u) && u !in h'[t].openupval ==>
        if NotDead(h, m, fixed, cw, u) then u in h' && h'[u] == Upval(Closed(ValueOf(h, u))) else u !in h')
    )
  }

  lemma ClosingStarts(h: Heap, m: map<Id, Colour>, fixed: set<Id>, cw: Colour, t: Id, level: nat, uvhead: seq<Id>)
    requires t in h && h[t].Thread? && UpvalsListed(h, uvhead)
    ensures ClosingDown(h, m, fixed, cw, t, level, h)
  {
  }

  lemma ClosingEnds(h: Heap, m: map<Id, Colour>, fixed: set<Id>, cw: Colour, t: Id, level: nat, h': Heap,
      uvhead: seq<Id>)
    requires ClosingDown(h, m, fixed, cw, t, level, h') && t in h' && h'[t].Thread? && UpvalsListed(h', uvhead)
    requires h'[t].openupval != [] ==> !Above(h', t, level, h'[t].openupval[0])
    ensures ClosedDown(h, m, fixed, cw, t, level, h')
  {
    assert OpenList(h', t);
    forall u | u in h'[t].openupval
      ensures !Above(h', t, level, u)
    {
      var i :| 0 <= i < |h'[t].openupval| && h'[t].openupval[i] == u;
      assert i > 0 ==> Level(h', h'[t].openupval[0]) > Level(h', u);
    }
    forall u | u in h && Above(h, t, level, u)
      ensures u !in h'[t].openupval
    {
    }
  }

  /** One more upvalue was taken off the list and closed, or freed. */
  lemma ClosingStep(h: Heap, m: map<Id, Colour>, fixed: set<Id>, cw: Colour, t: Id, level: nat, h1: Heap, h2: Heap,
      u: Id)
    requires ClosingDown(h, m, fixed, cw, t, level, h1)
    requires t in h1 && h1[t].Thread? && h1[t].openupval != [] && u == h1[t].openupval[0] && Distinct(h1[t].openupval)
    requires Above(h1, t, level, u)
    requires h2 == if NotDead(h, m, fixed, cw, u) then CloseFirst(h1, t) else DropOpen(h1, t, 0, u)
    ensures ClosingDown(h, m, fixed, cw, t, level, h2)
  {
    var l := h1[t].openupval;
    RemoveAtFacts(l, 0);
    assert h2[t].openupval == RemoveAt(l, 0);
    assert ValueOf(h1, u) == ValueOf(h, u);
    assert forall x :: x in h1 && x != u && x != t ==> x in h2 && h2[x] == h1[x];
  }
}
