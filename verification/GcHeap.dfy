/** The heap the collector of lgc.c works on: objects by address, the edges
    between them, and reachability from a root set. */
module GcHeap {
  import opened Wrappers

  type Id = int

  /** A TValue: nil, a value that is not collectable, or a reference. */
  datatype Value = Nil | Plain(n: int) | Ref(id: Id)

  datatype Node = Node(key: Value, val: Value)

  /** Where the value of an upvalue lives: in a stack slot or in the upvalue. */
  datatype Place = Open(thread: Id, slot: nat) | Closed(v: Value)

  /** The collectable kinds of lobject.h. Stacks hold the slots below `top`. */
  datatype Object =
    | Str(text: string)
    | Userdata(meta: Option<Id>, env: Id)
    | Upval(place: Place)
    | CClosure(env: Id, upvalues: seq<Value>)
    | LClosure(env: Id, proto: Id, upvals: seq<Id>)
    | Table(meta: Option<Id>, items: seq<Value>, node: seq<Node>)
    | Thread(globals: Value, stack: seq<Value>, openupval: seq<Id>)
    | Proto(source: Option<Id>, k: seq<Value>, upvalueNames: seq<Id>, protos: seq<Id>, localNames: seq<Id>)

  type Heap = map<Id, Object>

  predicate IsOpen(o: Object) {
    o.Upval? && o.place.Open?
  }

  /** The raw get of luaH_getstr: the value of the first node with this key. */
  function Find(node: seq<Node>, key: Value): Value {
    if node == [] then Nil
    else if node[0].key == key then node[0].val
    else Find(node[1..], key)
  }

  /** The part of a text before a zero, where a C string ends. */
  function CString(text: string): string {
    if text == "" || text[0] == '\0' then "" else [text[0]] + CString(text[1..])
  }

  /** Whether the metatable of `o` has a string with letter `c` as its mode
      field; `name` is the interned name of that field. */
  predicate HasMode(h: Heap, name: Id, o: Object, c: char) {
    && o.Table? && o.meta.Some? && o.meta.value in h && h[o.meta.value].Table?
    && var mode := Find(h[o.meta.value].node, Ref(name));
    mode.Ref? && mode.id in h && h[mode.id].Str? && c in CString(h[mode.id].text)
  }

  ghost predicate NodeEdge(node: seq<Node>, keys: bool, vals: bool, y: Id) {
    exists n :: n in node && n.val != Nil && ((keys && n.key == Ref(y)) || (vals && n.val == Ref(y)))
  }

  /** `o` refers to `y`, weakly or not. An open upvalue refers to what its
      stack slot holds. */
  ghost predicate ObjectEdge(h: Heap, o: Object, y: Id) {
    match o
    case Str(_) => false
    case Userdata(meta, env) => meta == Some(y) || env == y
    case Upval(Closed(v)) => v == Ref(y)
    case Upval(Open(th, slot)) =>
      th in h && h[th].Thread? && slot < |h[th].stack| && h[th].stack[slot] == Ref(y)
    case CClosure(env, upvalues) => env == y || Ref(y) in upvalues
    case LClosure(env, proto, upvals) => env == y || proto == y || y in upvals
    case Table(meta, items, node) => meta == Some(y) || Ref(y) in items || NodeEdge(node, true, true, y)
    case Thread(globals, stack, _) => globals == Ref(y) || Ref(y) in stack
    case Proto(source, k, un, ps, ln) => source == Some(y) || Ref(y) in k || y in un || y in ps || y in ln
  }

  ghost predicate Edge(h: Heap, x: Id, y: Id) {
    x in h && ObjectEdge(h, h[x], y)
  }

  /** The edges a table contributes when `wk` and `wv` say which halves of its
      entries are weak. */
  ghost predicate TableEdge(o: Object, wk: bool, wv: bool, y: Id)
    requires o.Table?
  {
    o.meta == Some(y) || (!wv && Ref(y) in o.items) || NodeEdge(o.node, !wk, !wv, y)
  }

  /** The edges that keep their target alive: all but the weak halves of weak tables. */
  ghost predicate StrongEdge(h: Heap, name: Id, x: Id, y: Id) {
    x in h &&
    if h[x].Table? then TableEdge(h[x], HasMode(h, name, h[x], 'k'), HasMode(h, name, h[x], 'v'), y)
    else ObjectEdge(h, h[x], y)
  }

  lemma StrongIsEdge(h: Heap, name: Id, x: Id, y: Id)
    requires StrongEdge(h, name, x, y)
    ensures Edge(h, x, y)
  {
  }

  ghost predicate ClosedUnder(h: Heap, s: set<Id>) {
    forall x, y :: x in s && Edge(h, x, y) ==> y in s
  }

  ghost predicate StrongClosed(h: Heap, name: Id, s: set<Id>) {
    forall x, y :: x in s && StrongEdge(h, name, x, y) ==> y in s
  }

  /** Reachable by any edges: in every set that holds the roots and is closed. */
  ghost predicate Reach(h: Heap, roots: set<Id>, x: Id) {
    forall s: set<Id> :: roots <= s && ClosedUnder(h, s) ==> x in s
  }

  ghost predicate StrongReach(h: Heap, name: Id, roots: set<Id>, x: Id) {
    forall s: set<Id> :: roots <= s && StrongClosed(h, name, s) ==> x in s
  }

  ghost predicate Path(h: Heap, name: Id, p: seq<Id>) {
    |p| > 0 && forall i :: 0 <= i < |p| - 1 ==> StrongEdge(h, name, p[i], p[i + 1])
  }

  ghost predicate PathTo(h: Heap, name: Id, roots: set<Id>, p: seq<Id>, x: Id) {
    Path(h, name, p) && p[0] in roots && p[|p| - 1] == x
  }

  lemma {:induction false} PathStaysIn(h: Heap, name: Id, p: seq<Id>, s: set<Id>)
    requires Path(h, name, p) && p[0] in s && StrongClosed(h, name, s)
    ensures p[|p| - 1] in s
  {
    if |p| > 1 {
      PathStaysIn(h, name, p[..|p| - 1], s);
      assert StrongEdge(h, name, p[|p| - 2], p[|p| - 2 + 1]);
    }
  }

  /** In a heap without dangling strong references, membership in every closed
      set is the same as having a path from a root. */
  lemma StrongReachIsPath(h: Heap, name: Id, roots: set<Id>, x: Id)
    requires roots <= h.Keys
    requires StrongClosed(h, name, h.Keys)
    ensures StrongReach(h, name, roots, x) <==> exists p :: PathTo(h, name, roots, p, x)
  {
    if p :| PathTo(h, name, roots, p, x) {
      forall s: set<Id> | roots <= s && StrongClosed(h, name, s)
        ensures x in s
      {
        PathStaysIn(h, name, p, s);
      }
    }
    if StrongReach(h, name, roots, x) {
      var s := set z | z in h && exists p :: PathTo(h, name, roots, p, z);
      forall r | r in roots
        ensures r in s
      {
        assert PathTo(h, name, roots, [r], r);
      }
      forall z, y | z in s && StrongEdge(h, name, z, y)
        ensures y in s
      {
        var p :| PathTo(h, name, roots, p, z);
        var q := p + [y];
        forall i | 0 <= i < |q| - 1
          ensures StrongEdge(h, name, q[i], q[i + 1])
        {
          if i < |p| - 1 {
            assert StrongEdge(h, name, p[i], p[i + 1]);
          }
        }
        assert PathTo(h, name, roots, q, y);
      }
      assert x in s;
    }
  }

  /** What is strongly reachable does not depend on the part of the heap outside
      a closed set that holds the roots. */
  lemma StrongReachLocal(h: Heap, h': Heap, name: Id, roots: set<Id>, s: set<Id>, x: Id)
    requires roots <= s && StrongClosed(h, name, s)
    requires forall z, y :: z in s ==> (StrongEdge(h, name, z, y) <==> StrongEdge(h', name, z, y))
    ensures StrongReach(h, name, roots, x) <==> StrongReach(h', name, roots, x)
  {
    if StrongReach(h, name, roots, x) {
      forall t: set<Id> | roots <= t && StrongClosed(h', name, t)
        ensures x in t
      {
        assert roots <= t * s && StrongClosed(h, name, t * s);
      }
    }
    if StrongReach(h', name, roots, x) {
      forall t: set<Id> | roots <= t && StrongClosed(h, name, t)
        ensures x in t
      {
        assert roots <= t * s && StrongClosed(h', name, t * s);
      }
    }
  }
}
