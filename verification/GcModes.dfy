/** What weak tables mean to a program: which entries the text of the mode keeps,
    and which references keep an object. */
module GcModes {
  import opened GcHeap
  import opened GcLists
  import opened GcPrecision
  import opened Wrappers

  ghost predicate IsModeKey(h: Heap, v: Value) {
    v.Ref? && v.id in h && h[v.id] == Str("__mode")
  }

  /** The first field named __mode of the metatable of `o` holds the string `text`. */
  ghost predicate Says(h: Heap, o: Object, text: string) {
    && o.Table? && o.meta.Some? && o.meta.value in h && h[o.meta.value].Table?
    && exists i :: SaysAt(h, h[o.meta.value].node, i, text)
  }

  ghost predicate SaysAt(h: Heap, node: seq<Node>, i: int, text: string) {
    && 0 <= i < |node| && IsModeKey(h, node[i].key) && (forall j :: 0 <= j < i ==> !IsModeKey(h, node[j].key))
    && node[i].val.Ref? && node[i].val.id in h && h[node[i].val.id] == Str(text)
  }

  /** The letter is in the text, before any zero. */
  ghost predicate Names(text: string, c: char) {
    exists i :: NamesAt(text, c, i)
  }

  predicate NamesAt(text: string, c: char, i: int) {
    0 <= i < |text| && text[i] == c && forall j :: 0 <= j < i ==> text[j] != '\0'
  }

  ghost predicate WeakKeys(h: Heap, o: Object) {
    exists text :: Says(h, o, text) && Names(text, 'k')
  }

  ghost predicate WeakValues(h: Heap, o: Object) {
    exists text :: Says(h, o, text) && Names(text, 'v')
  }

  lemma {:induction false} LetterIn(text: string, c: char)
    requires c != '\0'
    ensures c in CString(text) <==> Names(text, c)
    decreases |text|
  {
    if text != "" && text[0] != '\0' {
      var rest := text[1..];
      LetterIn(rest, c);
      if text[0] == c {
        assert NamesAt(text, c, 0);
      }
      if i :| NamesAt(rest, c, i) {
        assert NamesAt(text, c, i + 1);
      }
      if i :| NamesAt(text, c, i) && i > 0 {
        assert NamesAt(rest, c, i - 1);
      }
    }
  }

  /** The name of the mode field is one string of the heap. */
  ghost predicate OneName(h: Heap, name: Id) {
    name in h && h[name] == Str("__mode") && forall x :: x in h && h[x] == Str("__mode") ==> x == name
  }

  lemma {:induction false} FindFirst(node: seq<Node>, key: Value) returns (i: nat)
    ensures i <= |node| && forall j :: 0 <= j < i ==> node[j].key != key
    ensures if i == |node| then Find(node, key) == Nil else node[i].key == key && Find(node, key) == node[i].val
  {
    if node == [] || node[0].key == key {
      i := 0;
    } else {
      i := FindFirst(node[1..], key);
      i := i + 1;
    }
  }

  lemma ModeIs(h: Heap, name: Id, o: Object)
    requires OneName(h, name)
    ensures HasMode(h, name, o, 'k') <==> WeakKeys(h, o)
    ensures HasMode(h, name, o, 'v') <==> WeakValues(h, o)
  {
    if o.Table? && o.meta.Some? && o.meta.value in h && h[o.meta.value].Table? {
      var node := h[o.meta.value].node;
      var i := FindFirst(node, Ref(name));
      forall v
        ensures IsModeKey(h, v) <==> v == Ref(name)
      {
      }
      var mode := Find(node, Ref(name));
      forall text, j | SaysAt(h, node, j, text)
        ensures j == i
      {
      }
      if mode.Ref? && mode.id in h && h[mode.id].Str? {
        LetterIn(h[mode.id].text, 'k');
        LetterIn(h[mode.id].text, 'v');
        assert SaysAt(h, node, i, h[mode.id].text);
        assert Says(h, o, h[mode.id].text);
      }
    }
  }

  // ----- references that keep objects -----

  /** `x` has a reference to `y` that is not weak. */
  ghost predicate Holds(h: Heap, x: Id, y: Id) {
    x in h &&
    var o := h[x];
    || (o.Userdata? && (o.meta == Some(y) || o.env == y))
    || (o.Upval? && ValueOf(h, x) == Ref(y))
    || (o.CClosure? && (o.env == y || Ref(y) in o.upvalues))
    || (o.LClosure? && (o.env == y || o.proto == y || y in o.upvals))
    || (o.Thread? && (o.globals == Ref(y) || Ref(y) in o.stack))
    || (o.Proto? && (o.source == Some(y) || Ref(y) in o.k || y in o.upvalueNames || y in o.protos || y in o.localNames))
    || (o.Table? && o.meta == Some(y))
    || (o.Table? && !WeakValues(h, o) && Ref(y) in o.items)
    || (o.Table? && !WeakKeys(h, o) && exists n :: n in o.node && n.val != Nil && n.key == Ref(y))
    || (o.Table? && !WeakValues(h, o) && exists n :: n in o.node && n.val == Ref(y))
  }

  lemma HoldsIsStrong(h: Heap, name: Id, x: Id, y: Id)
    requires OneName(h, name)
    ensures Holds(h, x, y) <==> StrongEdge(h, name, x, y)
  {
    if x in h && h[x].Table? {
      ModeIs(h, name, h[x]);
    }
  }

  ghost predicate HoldsClosed(h: Heap, s: set<Id>) {
    forall x, y :: x in s && Holds(h, x, y) ==> y in s
  }

  /** Every table keeps what its mode does not make weak, and loses an entry
      exactly when its key or value is gone. */
  ghost predicate KeptByMode(h: Heap, h': Heap, t: Id)
    requires t in h && t in h' && h[t].Table?
  {
    var o, o' := h[t], h'[t];
    && o'.Table? && o'.meta == o.meta && |o'.items| == |o.items| && |o'.node| == |o.node|
    && (!WeakValues(h, o) ==> o'.items == o.items)
    && (forall i :: 0 <= i < |o.items| ==> ItemKept(h', o.items[i], o'.items[i], WeakValues(h, o)))
    && (forall i :: 0 <= i < |o.node| ==> NodeKept(h', o.node[i], o'.node[i], WeakKeys(h, o), WeakValues(h, o)))
  }

  predicate Dangles(h: Heap, v: Value) {
    v.Ref? && v.id !in h
  }

  predicate ItemKept(h': Heap, was: Value, now: Value, weakvalues: bool) {
    && (!weakvalues ==> !Dangles(h', was))
    && now == if Dangles(h', was) then Nil else was
  }

  predicate NodeKept(h': Heap, was: Node, now: Node, weakkeys: bool, weakvalues: bool) {
    if was.val == Nil then now == was
    else
      && (!weakkeys ==> !Dangles(h', was.key))
      && (!weakvalues ==> !Dangles(h', was.val))
      && now == if Dangles(h', was.key) || Dangles(h', was.val) then Node(was.key, Nil) else was
  }

  // ----- a whole collection -----

  /** What a full collection has to say of its results, for these lemmas. */
  ghost predicate Collected(h: Heap, m: map<Id, Colour>, fixed: set<Id>, cw: Colour, name: Id, roots: set<Id>,
      h': Heap) {
    true <==> (
      && HeapOk(h, m, fixed, cw) && OneName(h, name)
      && (forall r :: r in roots ==> NotDead(h, m, fixed, cw, r))
      && (forall x :: x in fixed ==> x in h && (h[x].Str? || x in roots))
      && h'.Keys == Survivors(h, name, roots, fixed)
      && (forall x :: x in h' ==> x in h && ContentsExact(h, name, StrongSet(h, name, roots), h', x))
    )
  }

  lemma Collects(h: Heap, m: map<Id, Colour>, fixed: set<Id>, cw: Colour, name: Id, roots: set<Id>, h': Heap)
    requires HeapOk(h, m, fixed, cw) && OneName(h, name)
    requires forall r :: r in roots ==> NotDead(h, m, fixed, cw, r)
    requires forall x :: x in fixed ==> x in h && (h[x].Str? || x in roots)
    requires h'.Keys == Survivors(h, name, roots, fixed)
    requires forall x :: x in h' ==> x in h && ContentsExact(h, name, StrongSet(h, name, roots), h', x)
    ensures Collected(h, m, fixed, cw, name, roots, h')
  {
  }

  lemma StrongAlive(h: Heap, m: map<Id, Colour>, fixed: set<Id>, cw: Colour, name: Id, roots: set<Id>)
    requires HeapOk(h, m, fixed, cw) && forall r :: r in roots ==> NotDead(h, m, fixed, cw, r)
    ensures forall x :: StrongReach(h, name, roots, x) ==> NotDead(h, m, fixed, cw, x)
    ensures forall x, y :: x in StrongSet(h, name, roots) && Edge(h, x, y) ==> y in h
    ensures forall x, y :: x in StrongSet(h, name, roots) && StrongEdge(h, name, x, y) ==>
      y in StrongSet(h, name, roots)
  {
    var alive := set x | x in h && NotDead(h, m, fixed, cw, x);
    forall x, y | x in alive && StrongEdge(h, name, x, y)
      ensures y in alive
    {
      StrongIsEdge(h, name, x, y);
      assert NotDead(h, m, fixed, cw, y);
    }
    forall r | r in roots
      ensures r in alive
    {
      assert NotDead(h, m, fixed, cw, r);
    }
    assert StrongClosed(h, name, alive);
    forall x | StrongReach(h, name, roots, x)
      ensures x in alive
    {
    }
    forall x, y | x in StrongSet(h, name, roots) && Edge(h, x, y)
      ensures y in h
    {
      assert x in alive && NotDead(h, m, fixed, cw, y);
    }
    forall x, y | x in StrongSet(h, name, roots) && StrongEdge(h, name, x, y)
      ensures y in StrongSet(h, name, roots)
    {
      StrongIsEdge(h, name, x, y);
      forall s: set<Id> | roots <= s && StrongClosed(h, name, s)
        ensures y in s
      {
        assert x in s;
      }
    }
  }

  /** Of what a surviving table refers to, all but some strings survives exactly
      if it is strongly reachable. */
  lemma Survives(h: Heap, m: map<Id, Colour>, fixed: set<Id>, cw: Colour, name: Id, roots: set<Id>, h': Heap, x: Id)
    requires Collected(h, m, fixed, cw, name, roots, h') && x in h
    ensures x in StrongSet(h, name, roots) ==> x in h'
    ensures x in h' && !h[x].Str? ==> x in StrongSet(h, name, roots)
  {
    if x in roots {
      assert StrongReach(h, name, roots, x);
    }
  }

  lemma TouchedSurvives(h: Heap, m: map<Id, Colour>, fixed: set<Id>, cw: Colour, name: Id, roots: set<Id>, h': Heap,
      t: Id, x: Id)
    requires Collected(h, m, fixed, cw, name, roots, h') && x in h && h[x].Str?
    requires t in StrongSet(h, name, roots)
    requires Touches(h, MarksOf(h, StrongSet(h, name, roots)), h[t], HasMode(h, name, h[t], 'v'), x)
    ensures x in h'
  {
    assert KeptByWeak(h, name, StrongSet(h, name, roots), x);
  }

  lemma NodeIsKept(h: Heap, m: map<Id, Colour>, fixed: set<Id>, cw: Colour, name: Id, roots: set<Id>, h': Heap, t: Id,
      n: Node)
    requires Collected(h, m, fixed, cw, name, roots, h') && t in StrongSet(h, name, roots) && h[t].Table?
    requires n in h[t].node
    ensures NodeKept(h', n, ClearNode(h, MarksOf(h, StrongSet(h, name, roots)), n), HasMode(h, name, h[t], 'k'),
      HasMode(h, name, h[t], 'v'))
  {
    var s := StrongSet(h, name, roots);
    var marks := MarksOf(h, s);
    StrongAlive(h, m, fixed, cw, name, roots);
    if n.val != Nil {
      if n.key.Ref? {
        assert Edge(h, t, n.key.id);
        Survives(h, m, fixed, cw, name, roots, h', n.key.id);
        assert !HasMode(h, name, h[t], 'k') ==> StrongEdge(h, name, t, n.key.id);
        if h[n.key.id].Str? {
          assert NodeTouches(h, marks, n, n.key.id);
          TouchedSurvives(h, m, fixed, cw, name, roots, h', t, n.key.id);
        }
      }
      if n.val.Ref? {
        assert Edge(h, t, n.val.id);
        Survives(h, m, fixed, cw, name, roots, h', n.val.id);
        assert !HasMode(h, name, h[t], 'v') ==> StrongEdge(h, name, t, n.val.id);
        if h[n.val.id].Str? && !Gone(h, marks, n.key) {
          assert NodeTouches(h, marks, n, n.val.id);
          TouchedSurvives(h, m, fixed, cw, name, roots, h', t, n.val.id);
        }
      }
    }
  }

  lemma ItemIsKept(h: Heap, m: map<Id, Colour>, fixed: set<Id>, cw: Colour, name: Id, roots: set<Id>, h': Heap, t: Id,
      v: Value)
    requires Collected(h, m, fixed, cw, name, roots, h') && t in StrongSet(h, name, roots) && h[t].Table?
    requires v in h[t].items
    ensures HasMode(h, name, h[t], 'v') ==>
      (Dangles(h', v) <==> Gone(h, MarksOf(h, StrongSet(h, name, roots)), v))
    ensures !HasMode(h, name, h[t], 'v') ==> !Dangles(h', v)
  {
    StrongAlive(h, m, fixed, cw, name, roots);
    if v.Ref? {
      assert Edge(h, t, v.id);
      Survives(h, m, fixed, cw, name, roots, h', v.id);
      assert !HasMode(h, name, h[t], 'v') ==> StrongEdge(h, name, t, v.id);
      if h[v.id].Str? && HasMode(h, name, h[t], 'v') {
        TouchedSurvives(h, m, fixed, cw, name, roots, h', t, v.id);
      }
    }
  }

  lemma TablesKept(h: Heap, m: map<Id, Colour>, fixed: set<Id>, cw: Colour, name: Id, roots: set<Id>, h': Heap, t: Id)
    requires Collected(h, m, fixed, cw, name, roots, h') && t in h' && t in h && h[t].Table?
    ensures KeptByMode(h, h', t)
  {
    var s := StrongSet(h, name, roots);
    assert ContentsExact(h, name, s, h', t);
    ModeIs(h, name, h[t]);
    forall v | v in h[t].items
      ensures HasMode(h, name, h[t], 'v') ==> (Dangles(h', v) <==> Gone(h, MarksOf(h, s), v))
      ensures !HasMode(h, name, h[t], 'v') ==> !Dangles(h', v)
    {
      ItemIsKept(h, m, fixed, cw, name, roots, h', t, v);
    }
    forall n | n in h[t].node
      ensures NodeKept(h', n, ClearNode(h, MarksOf(h, s), n), HasMode(h, name, h[t], 'k'), HasMode(h, name, h[t], 'v'))
    {
      NodeIsKept(h, m, fixed, cw, name, roots, h', t, n);
    }
    hide StrongSet, MarksOf, HasMode, Gone, Dangles, NodeKept, WeakKeys, WeakValues, Collected, ClearNode;
  }

  /** The survivors are the roots, what survivors refer to, strings and the fixed
      objects, and nothing else. */
  lemma NothingElse(h: Heap, m: map<Id, Colour>, fixed: set<Id>, cw: Colour, name: Id, roots: set<Id>, h': Heap)
    requires Collected(h, m, fixed, cw, name, roots, h')
    ensures forall r :: r in roots ==> r in h'
    ensures forall x, y :: x in h' && Holds(h, x, y) ==> y in h'
    ensures forall s, x :: roots <= s && HoldsClosed(h, s) && x in h' && !h[x].Str? ==> x in s
  {
    StrongAlive(h, m, fixed, cw, name, roots);
    forall r | r in roots
      ensures r in h'
    {
      assert StrongReach(h, name, roots, r) && NotDead(h, m, fixed, cw, r);
      Survives(h, m, fixed, cw, name, roots, h', r);
    }
    forall x, y | x in h' && Holds(h, x, y)
      ensures y in h'
    {
      HoldsIsStrong(h, name, x, y);
      Survives(h, m, fixed, cw, name, roots, h', x);
      assert x in StrongSet(h, name, roots) && y in StrongSet(h, name, roots);
    }
    forall s, x | roots <= s && HoldsClosed(h, s) && x in h' && !h[x].Str?
      ensures x in s
    {
      Survives(h, m, fixed, cw, name, roots, h', x);
      assert StrongClosed(h, name, s) by {
        forall z, y | z in s && StrongEdge(h, name, z, y)
          ensures y in s
        {
          HoldsIsStrong(h, name, z, y);
        }
      }
    }
  }
}
