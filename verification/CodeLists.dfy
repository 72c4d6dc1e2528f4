/** Lists of pending jumps, threaded through the jumps themselves. */
module CodeLists {
  import opened Wrappers
  import opened CodeVm
  import opened CodeState
  import opened CodeMeans

  function Link(code: seq<Instr>, pc: nat): int
    requires pc < |code| && code[pc].Jmp?
  {
    if code[pc].sbx == -1 then -1 else pc + 1 + code[pc].sbx
  }

  /** From `head`, the links lead through exactly the jumps of `l`. */
  ghost predicate IsList(code: seq<Instr>, head: int, l: seq<nat>) {
    && head == (if l == [] then -1 else l[0])
    && Distinct(l)
    && (forall p :: p in l ==> p < |code| && code[p].Jmp?)
    && (forall i :: 0 <= i < |l| ==> LinkedAt(code, l, i))
  }

  predicate LinkedAt(code: seq<Instr>, l: seq<nat>, i: nat)
    requires i < |l|
  {
    l[i] < |code| && code[l[i]].Jmp? && Link(code, l[i]) == if i + 1 < |l| then l[i + 1] else -1
  }

  /** Only links of jumps in `l` may differ. */
  ghost predicate Relinked(code: seq<Instr>, code': seq<Instr>, l: seq<nat>) {
    |code'| == |code| && forall i :: 0 <= i < |code| ==> code'[i] == code[i] || (i in l && code[i].Jmp? && code'[i].Jmp?)
  }

  lemma KeepsList(code: seq<Instr>, code': seq<Instr>, head: int, l: seq<nat>)
    requires IsList(code, head, l)
    requires forall p :: p in l ==> p < |code'| && code'[p] == code[p]
    ensures IsList(code', head, l)
  {
    forall i | 0 <= i < |l|
      ensures LinkedAt(code', l, i)
    {
      assert l[i] in l && LinkedAt(code, l, i);
    }
  }

  lemma Concatenated(code: seq<Instr>, code': seq<Instr>, l1: int, a: seq<nat>, l2: int, b: seq<nat>)
    requires IsList(code, l1, a) && IsList(code, l2, b) && Distinct(a + b) && a != [] && b != []
    requires a[|a| - 1] < |code| && code' == code[a[|a| - 1] := Jmp(l2 - (a[|a| - 1] + 1))]
    ensures IsList(code', l1, a + b) && Relinked(code, code', a)
  {
    var l, m := a + b, |a| - 1;
    assert forall i, j :: 0 <= i < j < |l| ==> l[i] != l[j];
    forall i | 0 <= i < |l|
      ensures LinkedAt(code', l, i)
    {
      if i < |a| {
        assert l[i] == a[i];
        NextLink(code, l1, a, i);
      } else {
        assert l[i] == b[i - |a|];
        NextLink(code, l2, b, i - |a|);
      }
      if i == m {
        assert l[i + 1] == b[0] == l2;
      } else {
        assert l[i] != l[m];
        assert i + 1 < |l| ==> l[i + 1] == if i + 1 < |a| then a[i + 1] else b[i + 1 - |a|];
      }
    }
    forall p | p in l
      ensures p < |code'| && code'[p].Jmp?
    {
      var i :| 0 <= i < |l| && l[i] == p;
    }
    assert a[m] in a;
  }

  lemma NextLink(code: seq<Instr>, head: int, l: seq<nat>, i: nat)
    requires IsList(code, head, l) && i < |l|
    ensures l[i] in l && l[i] < |code| && code[l[i]].Jmp?
    ensures Link(code, l[i]) == if i + 1 < |l| then l[i + 1] else -1
  {
    assert LinkedAt(code, l, i);
  }

  /** removevalues: the jumps of the list no longer bring a value. */
  function WithoutValues(code: seq<Instr>, l: seq<nat>): (r: seq<Instr>)
    ensures |r| == |code|
    decreases |l|
  {
    if l == [] || l[0] >= |code| then code
    else WithoutValues(if Patchable(code, l[0]) then code[l[0] - 1 := Patched(code[l[0] - 1], NO_REG)] else code, l[1..])
  }

  lemma {:induction false} WithoutAt(code: seq<Instr>, l: seq<nat>, i: nat)
    requires i < |code| && forall p :: p in l ==> p < |code|
    ensures var code' := WithoutValues(code, l);
      code'[i] == if code[i].TestSet? && i + 1 in l then Test(code[i].b, code[i].cond) else code[i]
    decreases |l|
  {
    if l != [] {
      assert l[0] in l && forall p :: p in l <==> p == l[0] || p in l[1..];
      var c := if Patchable(code, l[0]) then code[l[0] - 1 := Patched(code[l[0] - 1], NO_REG)] else code;
      WithoutAt(c, l[1..], i);
    }
  }

  // ----- what code generation leaves alone -----

  /** The jump at `p`, its link and the test that controls it, if one does. */
  predicate Untouched(code: seq<Instr>, code': seq<Instr>, p: nat) {
    && p < |code| && p < |code'| && code'[p] == code[p]
    && (p >= 1 ==> code'[p - 1] == code[p - 1] || (!IsTest(code[p - 1]) && !IsTest(code'[p - 1])))
  }

  /** `s'` goes on from `s`. Jumps pending elsewhere stay pending and untouched;
      all other pending jumps lead to here or are in `own`, and never both. */
  ghost predicate Extends(s: State, s': State, own: set<nat>) {
    true <==> (
      && s.k <= s'.k && |s.code| <= |s'.code|
      && (forall p :: p in s.pend && p !in s.jpc ==> p in s'.pend && p !in s'.jpc && p !in own && Untouched(s.code, s'.code, p))
      && (forall p :: p in s'.pend ==> (p in s.pend && p !in s.jpc) || p in s'.jpc || p in own)
      && (forall p :: p in own ==> p in s'.pend && p !in s'.jpc)
    )
  }

  lemma ExtendsSelf(s: State)
    requires Wf(s)
    ensures Extends(s, s, {})
  {
    forall p | p in s.pend
      ensures Untouched(s.code, s.code, p)
    {
    }
  }

  lemma ExtendsOn(s0: State, s1: State, own1: set<nat>, s2: State, own2: set<nat>)
    requires Extends(s0, s1, own1) && Extends(s1, s2, own2)
    ensures Extends(s0, s2, own1 + own2)
  {
  }

  /** A list of own jumps survives what goes on from there. */
  lemma ListOn(s: State, s': State, own: set<nat>, head: int, l: seq<nat>)
    requires Extends(s, s', own)
    requires IsList(s.code, head, l) && forall p :: p in l ==> p in s.pend && p !in s.jpc
    ensures IsList(s'.code, head, l)
  {
    KeepsList(s.code, s'.code, head, l);
  }

  lemma ControlsOn(s: State, s': State, own: set<nat>, l: seq<nat>)
    requires Extends(s, s', own)
    requires forall p :: p in l ==> p in s.pend && p !in s.jpc && 0 < p < |s.code| && IsTest(s.code[p - 1])
    ensures SameControls(s.code, s'.code, l)
    ensures forall p :: p in l ==> p in s'.pend && p !in s'.jpc && 0 < p < |s'.code| && IsTest(s'.code[p - 1])
  {
    forall p | p in l
      ensures 0 < p < |s.code| && p < |s'.code| && s'.code[p - 1] == s.code[p - 1]
    {
      assert Untouched(s.code, s'.code, p);
    }
  }

  lemma DischargeExtends(s: State)
    requires Wf(s)
    ensures Extends(s, Discharge(s), {})
  {
    var d := Discharge(s);
    forall p | p in s.jpc
      ensures p < |s.code| && s.code[p].Jmp?
    {
      assert p in s.pend;
    }
    PatchAllOthers(s.code, s.jpc, NO_REG, |s.code|, |s.code|);
    forall p | p in s.pend && p !in s.jpc
      ensures Untouched(s.code, d.code, p)
    {
      assert p < |s.code| && s.code[p].Jmp?;
      if p + 1 in s.jpc {
        assert d.code[p] == s.code[p] by {
          OtherPatched(s.code, s.jpc, NO_REG, |s.code|, |s.code|, p);
        }
      }
      if p >= 1 {
        OtherPatched(s.code, s.jpc, NO_REG, |s.code|, |s.code|, p - 1);
      }
    }
  }

  /** Patching a list changes its jumps and the TESTSETs before them. */
  lemma {:induction false} OtherPatched(code: seq<Instr>, list: seq<nat>, reg: nat, v: int, d: int, i: nat)
    requires forall p :: p in list ==> p < |code| && code[p].Jmp?
    requires i < |code|
    ensures var code' := PatchAll(code, list, reg, v, d);
      code'[i] == code[i] || (i in list && code'[i].Jmp?) || (i + 1 in list && code[i].TestSet? && IsTest(code'[i]))
    ensures var code' := PatchAll(code, list, reg, v, d);
      i !in list && !code[i].TestSet? ==> code'[i] == code[i]
    decreases |list|
  {
    if list != [] {
      assert list[0] in list && forall q :: q in list <==> q == list[0] || q in list[1..];
      PatchOthers(code, list[0], reg, v, d);
      OtherPatched(PatchJump(code, list[0], reg, v, d), list[1..], reg, v, d, i);
    }
  }

  lemma AppendExtends(s: State, tail: seq<Instr>, pend': set<nat>, jpc': seq<nat>, last': int, own: set<nat>)
    requires Wf(s)
    requires forall p :: p in s.pend ==> p in pend' && (p in s.jpc || p !in jpc')
    requires forall p :: p in pend' ==> p in s.pend || p in jpc' || p in own
    requires forall p :: p in s.jpc ==> p in jpc'
    requires forall p :: p in own ==> p in pend' && p !in jpc' && p >= |s.code|
    ensures Extends(s, State(s.k, s.code + tail, pend', jpc', last'), own)
  {
    forall p | p in s.pend && p !in s.jpc
      ensures Untouched(s.code, s.code + tail, p)
    {
    }
  }

  lemma EmitExtends(s: State, i: Instr)
    requires Wf(s)
    ensures Extends(s, Emit(s, i), {})
  {
    var d := Discharge(s);
    DischargeExtends(s);
    Discharged(Anything(), s, map[]);
    AppendExtends(d, [i], d.pend, [], d.last, {});
    var none: set<nat> := {};
    ExtendsOn(s, d, none, Emit(s, i), none);
    assert none + none == none;
  }

  lemma TestExtends(s: State, i: Instr)
    requires Wf(s)
    ensures Extends(s, EmitTest(s, i), {|s.code| + 1})
  {
    var d := Discharge(s);
    DischargeExtends(s);
    Discharged(Anything(), s, map[]);
    AppendExtends(d, [i, Jmp(-1)], d.pend + {|s.code| + 1}, [], d.last, {|s.code| + 1});
    ExtendsOn(s, d, {}, EmitTest(s, i), {|s.code| + 1});
    assert {} + {|s.code| + 1} == {|s.code| + 1};
  }

  /** Own jumps lead to here now; links of jumps to here may change. */
  lemma HereExtends(s0: State, s: State, own: set<nat>, list: seq<nat>, s': State)
    requires Extends(s0, s, own) && forall p :: p in list ==> p in own
    requires s' == ToHere(s, list).(code := s'.code) && Relinked(s.code, s'.code, s.jpc)
    requires Wf(s0) && Wf(s)
    ensures Extends(s0, s', own - SetOf(list))
  {
    forall p | p in s0.pend && p !in s0.jpc
      ensures Untouched(s0.code, s'.code, p)
    {
      assert Untouched(s0.code, s.code, p);
    }
  }

  lemma RelinkExtends(s0: State, s: State, own: set<nat>, code': seq<Instr>, l: seq<nat>)
    requires Extends(s0, s, own) && Relinked(s.code, code', l) && forall p :: p in l ==> p in own
    ensures Extends(s0, s.(code := code'), own)
  {
    forall p | p in s0.pend && p !in s0.jpc
      ensures Untouched(s0.code, code', p)
    {
      assert Untouched(s0.code, s.code, p);
    }
  }

  lemma PatchExtends(s0: State, s: State, own: set<nat>, list: seq<nat>, reg: nat, d: int)
    requires Extends(s0, s, own) && Wf(s) && forall p :: p in list ==> p in own
    ensures Extends(s0, Patch(s, list, reg, d), own - SetOf(list))
  {
    var s' := Patch(s, list, reg, d);
    forall p | p in s.pend
      ensures p < |s.code| && s.code[p].Jmp?
    {
    }
    forall p | p in s0.pend && p !in s0.jpc
      ensures Untouched(s0.code, s'.code, p)
    {
      assert Untouched(s0.code, s.code, p) && p in s.pend;
      OtherPatched(s.code, list, reg, |s.code|, d, p);
      if p >= 1 {
        OtherPatched(s.code, list, reg, |s.code|, d, p - 1);
      }
    }
  }

  /** The end of the code is taken away. */
  lemma BeforeExtends(s0: State, s: State, own: set<nat>, n: nat)
    requires Extends(s0, s, own) && |s0.code| <= n <= |s.code| && s.jpc == [] && Wf(s0)
    ensures Extends(s0, Before(s, n), set p | p in own && p < n)
  {
    forall p | p in s0.pend && p !in s0.jpc
      ensures p < n && Untouched(s0.code, s.code[..n], p)
    {
      assert Untouched(s0.code, s.code, p);
    }
  }

  /** Some machine, where it does not matter which. */
  function Anything(): Vm {
    Vm((op, x, y) => None)
  }

  lemma OneJump(code: seq<Instr>)
    ensures IsList(code + [Jmp(-1)], |code|, [|code|])
  {
    assert LinkedAt(code + [Jmp(-1)], [|code|], 0);
  }

  // ----- loading nil -----

  /** The registers from `from` on are nil; the others keep their values. */
  ghost predicate NilFrom(r: Regs, r': Regs, from: nat, n: nat) {
    forall i: nat :: Get(r', i) == if from <= i < from + n then Nil else Get(r, i)
  }

  ghost predicate Nils(vm: Vm, np: nat, s: State, s': State, from: nat, n: nat) {
    true <==> (forall r :: Clean(r, np) ==>
      var o, o' := Reach(vm, s, r), Reach(vm, s', r);
      if o.Fall? then o'.Fall? && NilFrom(o.r, o'.r, from, n) else o' == o)
  }

  lemma EmitNils(vm: Vm, np: nat, s: State, from: nat, n: nat)
    requires Wf(s) && n > 0
    ensures Wf(Emit(s, LoadNil(from, from + n - 1)))
    ensures Nils(vm, np, s, Emit(s, LoadNil(from, from + n - 1)), from, n)
  {
    Emitted(vm, s, LoadNil(from, from + n - 1), map[]);
    forall r | Clean(r, np)
      ensures var o, o' := Reach(vm, s, r), Reach(vm, Emit(s, LoadNil(from, from + n - 1)), r);
        if o.Fall? then o'.Fall? && NilFrom(o.r, o'.r, from, n) else o' == o
    {
      Emitted(vm, s, LoadNil(from, from + n - 1), r);
      var o := Reach(vm, s, r);
      if o.Fall? {
        SetNilFrom(o.r, from, n);
        assert Done(s.k, LoadNil(from, from + n - 1), o.r) == SetNil(o.r, from, from + n - 1);
      }
    }
  }

  lemma SetNilFrom(r: Regs, from: nat, n: nat)
    requires n > 0
    ensures NilFrom(r, SetNil(r, from, from + n - 1), from, n)
  {
    var r' := SetNil(r, from, from + n - 1);
    forall i: nat
      ensures Get(r', i) == if from <= i < from + n then Nil else Get(r, i)
    {
      SetNilGets(r, from, from + n - 1, i);
    }
  }

  /** At the start of a function the registers above the parameters are nil. */
  lemma CleanNils(vm: Vm, np: nat, s: State, from: nat, n: nat)
    requires s.code == [] && from >= np
    ensures Nils(vm, np, s, s, from, n)
  {
  }

  lemma WideNils(vm: Vm, np: nat, s: State, a: nat, b: nat, from: nat, n: nat)
    requires Wf(s) && s.last < |s.code| && s.code != [] && s.code[|s.code| - 1] == LoadNil(a, b)
    requires a <= from <= b + 1 && n > 0
    ensures var s' := if from + n - 1 > b then s.(code := s.code[|s.code| - 1 := LoadNil(a, from + n - 1)]) else s;
      Wf(s') && Nils(vm, np, s, s', from, n) && Extends(s, s', {})
  {
    var b' := if from + n - 1 > b then from + n - 1 else b;
    var s' := s.(code := s.code[|s.code| - 1 := LoadNil(a, b')]);
    Widened(vm, s, s', a, b, b', map[]);
    assert b' == b ==> s'.code == s.code;
    forall r | Clean(r, np)
      ensures var o, o' := Reach(vm, s, r), Reach(vm, s', r);
        if o.Fall? then o'.Fall? && NilFrom(o.r, o'.r, from, n) else o' == o
    {
      Widened(vm, s, s', a, b, b', r);
      var o, o' := Reach(vm, s, r), Reach(vm, s', r);
      if o.Fall? {
        var r0 :| o.r == SetNil(r0, a, b) && o' == Fall(SetNil(r0, a, b'));
        forall i: nat
          ensures Get(o'.r, i) == if from <= i < from + n then Nil else Get(o.r, i)
        {
          SetNilGets(r0, a, b, i);
          SetNilGets(r0, a, b', i);
        }
      }
    }
    forall p | p in s.pend && p !in s.jpc
      ensures Untouched(s.code, s'.code, p)
    {
      assert s.code[p].Jmp?;
    }
  }

  lemma NilsLoad(vm: Vm, np: nat, s: State, s': State, reg: nat)
    requires Nils(vm, np, s, s', reg, 1)
    ensures Loads(vm, np, s, VNil, s', reg)
  {
    forall r | Clean(r, np)
      ensures var o, o' := Reach(vm, s, r), Reach(vm, s', r);
        if o.Fall? then o'.Fall? && Sets(o.r, o'.r, reg, Nil) else o' == o
    {
      var o, o' := Reach(vm, s, r), Reach(vm, s', r);
    }
  }

  /** Values that one instruction loads. */
  lemma EmitLoads(vm: Vm, np: nat, s: State, kind: Kind, reg: nat, i: Instr)
    requires Wf(s)
    requires match kind
      case VTrue => i == LoadBool(reg, true, false)
      case VFalse => i == LoadBool(reg, false, false)
      case VK(idx) => i == LoadK(reg, idx) && idx < |s.k|
      case VKNum(n) => i.LoadK? && i.a == reg && i.bx < |s.k| && s.k[i.bx] == Number(n)
      case VNonReloc(src) => i == Move(reg, src)
      case _ => false
    ensures Wf(Emit(s, i)) && Loads(vm, np, s, kind, Emit(s, i), reg)
  {
    Emitted(vm, s, i, map[]);
    forall r | Clean(r, np)
      ensures var o, o' := Reach(vm, s, r), Reach(vm, Emit(s, i), r);
        if o.Fall? then o'.Fall? && Sets(o.r, o'.r, reg, Main(vm, s, kind, o.r).value) else o' == o
    {
      Emitted(vm, s, i, r);
    }
  }

  /** A value that is in its register already. */
  lemma StaysLoaded(vm: Vm, np: nat, s: State, reg: nat)
    ensures Loads(vm, np, s, VNonReloc(reg), s, reg)
  {
  }

  /** More constants change no meaning. */
  lemma LoadsMoreK(vm: Vm, np: nat, s: State, k': seq<Value>, kind: Kind, s': State, reg: nat)
    requires Wf(s) && s.k <= k' && !kind.VReloc? && !kind.VJmp? && (kind.VK? ==> kind.info < |s.k|)
    requires Loads(vm, np, s.(k := k'), kind, s', reg)
    ensures Loads(vm, np, s, kind, s', reg)
  {
    forall r | Clean(r, np)
      ensures var o, o' := Reach(vm, s, r), Reach(vm, s', r);
        if o.Fall? then o'.Fall? && Sets(o.r, o'.r, reg, Main(vm, s, kind, o.r).value) else o' == o
    {
      MoreConstants(vm, s, k', r);
    }
  }

  lemma MoreKExtends(s: State, k': seq<Value>)
    requires Wf(s) && s.k <= k'
    ensures Extends(s, s.(k := k'), {})
  {
    ExtendsSelf(s);
  }

  /** An instruction whose register was open gets it. */
  lemma RelocLoads(vm: Vm, np: nat, s: State, b: nat, reg: nat, a: nat)
    requires Wf(s) && s.jpc == [] && s.code != [] && s.code[|s.code| - 1] == Not(a, b) && s.last <= |s.code| - 1
    ensures var s' := s.(code := s.code[|s.code| - 1 := Not(reg, b)]);
      Wf(s') && Loads(vm, np, s, VReloc(|s.code| - 1), s', reg) && Extends(s, s', {})
  {
    var n := |s.code| - 1;
    var s' := s.(code := s.code[n := Not(reg, b)]);
    var body := Before(s, n);
    BodyOfNot(s);
    assert s'.code == body.code + [Not(reg, b)];
    assert body.pend == s.pend && Discharge(body) == body by {
      assert body.pend - SetOf([]) == body.pend;
    }
    assert Emit(body, Not(reg, b)) == s';
    Emitted(vm, body, Not(reg, b), map[]);
    forall r | Clean(r, np)
      ensures var o, o' := Reach(vm, body, r), Reach(vm, s', r);
        if o.Fall? then o'.Fall? && Sets(o.r, o'.r, reg, Bool(IsFalse(Get(o.r, b)))) else o' == o
    {
      Emitted(vm, body, Not(reg, b), r);
    }
    forall p | p in s.pend && p !in s.jpc
      ensures Untouched(s.code, s'.code, p)
    {
      assert s.code[p].Jmp?;
    }
  }

  /** The state before an instruction at the end that no jump leads behind. */
  lemma BodyOfNot(s: State)
    requires Wf(s) && s.jpc == [] && s.code != [] && s.code[|s.code| - 1].Not? && s.last <= |s.code| - 1
    ensures Wf(Before(s, |s.code| - 1)) && Before(s, |s.code| - 1).pend == s.pend
  {
    var n := |s.code| - 1;
    if n > 0 {
      assert InstrOk(s.code, s.pend, |s.k|, s.last, n - 1);
    }
    assert forall p :: p in s.pend ==> p < n;
    BeforeReach(Anything(), s, n, map[]);
  }

  // ----- the descriptor of an expression -----

  /** The jumps of an expression, its own jump included when it is a comparison. */
  ghost function Own(kind: Kind, t: seq<nat>, f: seq<nat>): set<nat> {
    SetOf(t) + SetOf(f) + if kind.VJmp? then {kind.info} else {}
  }

  /** `t` and `f` are the lists of the descriptor, and each of their jumps has a
      test; what follows the body of the expression is what `kind` says. */
  ghost predicate JumpsOk(s: State, d: Desc, t: seq<nat>, f: seq<nat>) {
    true <==> (
      ListsIn(s, d, t, f) && TailOk(s, d.kind, t, f)
    )
  }

  ghost predicate ListsIn(s: State, d: Desc, t: seq<nat>, f: seq<nat>) {
    true <==> (
      && IsList(s.code, d.t, t) && IsList(s.code, d.f, f)
      && (forall p :: p in t ==> p !in f)
      && (forall p :: p in t || p in f ==> p in s.pend && p !in s.jpc && 0 < p < |s.code| && IsTest(s.code[p - 1]))
    )
  }

  ghost predicate TailOk(s: State, kind: Kind, t: seq<nat>, f: seq<nat>) {
    match kind
    case VReloc(i) => i + 1 == |s.code| && s.code[i].Not? && s.jpc == [] && s.last <= i
    case VJmp(p) =>
      && 0 < p && p + 1 == |s.code| && s.code[p - 1].Compare? && s.code[p] == Jmp(-1) && p in s.pend && p !in t
        && p !in f
      && s.jpc == [] && s.last <= p - 1
    case VK(i) => i < |s.k| && !IsFalse(s.k[i])
    case _ => true
  }

  /** In how many lists a jump is: those pending before the expression, the lists
      for true and for false, the comparison's own jump, and the jumps to here. */
  ghost function Places(s0: State, s: State, kind: Kind, t: seq<nat>, f: seq<nat>, p: nat): nat {
    (if p in s0.pend && p !in s0.jpc then 1 else 0) + (if p in t then 1 else 0) + (if p in f then 1 else 0)
    + (if kind == VJmp(p) then 1 else 0) + (if p in s.jpc then 1 else 0)
  }

  /** Conservation: each pending jump is in exactly one list, once, and what was
      pending before is as it was. */
  lemma PendingOnce(s0: State, s: State, d: Desc, t: seq<nat>, f: seq<nat>)
    requires Wf(s0) && Wf(s) && Extends(s0, s, Own(d.kind, t, f)) && JumpsOk(s, d, t, f)
    ensures forall p: nat :: Places(s0, s, d.kind, t, f, p) == if p in s.pend then 1 else 0
    ensures Distinct(t) && Distinct(f) && Distinct(s.jpc)
    ensures forall p :: p in s0.pend && p !in s0.jpc ==> Untouched(s0.code, s.code, p)
  {
    forall p: nat
      ensures Places(s0, s, d.kind, t, f, p) == if p in s.pend then 1 else 0
    {
      assert p in Own(d.kind, t, f) <==> p in t || p in f || d.kind == VJmp(p);
    }
  }

  /** The jumps of an expression survive what goes on from there. */
  lemma JumpsOn(s: State, d: Desc, t: seq<nat>, f: seq<nat>, s': State, own: set<nat>, kind: Kind)
    requires JumpsOk(s, d, t, f) && Extends(s, s', own) && TailOk(s', kind, t, f)
    ensures JumpsOk(s', Desc(kind, d.t, d.f), t, f)
    ensures SameControls(s.code, s'.code, t) && SameControls(s.code, s'.code, f)
  {
    ListOn(s, s', own, d.t, t);
    ListOn(s, s', own, d.f, f);
    ControlsOn(s, s', own, t);
    ControlsOn(s, s', own, f);
  }

  lemma TailFacts(s: State, d: Desc, t: seq<nat>, f: seq<nat>)
    requires JumpsOk(s, d, t, f)
    ensures d.kind.VK? ==> d.kind.info < |s.k|
    ensures d.kind.VReloc? ==>
      d.kind.info + 1 == |s.code| && s.code[d.kind.info].Not? && s.jpc == [] && s.last <= d.kind.info
    ensures forall s', reg :: TailOk(s', VNonReloc(reg), t, f)
  {
  }

  lemma LocalLoads(vm: Vm, np: nat, s: State, i: nat, s': State, reg: nat)
    requires Loads(vm, np, s, VNonReloc(i), s', reg)
    ensures Loads(vm, np, s, VLocal(i), s', reg)
  {
    assert Body(s, VNonReloc(i)) == Body(s, VLocal(i)) == s;
    forall r | Clean(r, np)
      ensures var o, o' := Reach(vm, s, r), Reach(vm, s', r);
        if o.Fall? then o'.Fall? && Sets(o.r, o'.r, reg, Get(o.r, i)) else o' == o
    {
      assert forall r' :: Main(vm, s, VNonReloc(i), r') == Main(vm, s, VLocal(i), r');
    }
  }

  lemma AroundLinks(s: State, reg: nat, c: seq<Instr>, code': seq<Instr>)
    requires Wf(s) && |c| == |s.code| + 1 && c[|s.code|].Jmp? && c[..|s.code|] == s.code
    requires code' == c + [LoadBool(reg, false, true), LoadBool(reg, true, false)]
    ensures Relinked(BoolsAround(s, reg).code, code', [|s.code|] + s.jpc)
    ensures Wf(BoolsAround(s, reg).(code := code'))
  {
    var b := BoolsAround(s, reg);
    var n := |s.code|;
    assert forall i :: 0 <= i < n ==> code'[i] == c[..n][i] == b.code[i];
    assert n in [n] + s.jpc;
    Around(Anything(), s, reg, map[]);
    AlikeReach(Anything(), b, code', map[]);
  }

  /** While one list is patched, the other list and the jumps to here stay. */
  lemma FinalLists(s: State, d: Desc, t: seq<nat>, f: seq<nat>, reg: nat, pf: int, pt: int, jpc: int)
    requires Wf(s) && IsList(s.code, d.t, t) && IsList(s.code, d.f, f) && IsList(s.code, jpc, s.jpc)
    requires forall p :: p in t || p in f ==> p in s.pend && p !in s.jpc
    requires forall p :: p in t ==> p !in f
    requires Loaders(s.code, t, f, reg, pf, pt)
    ensures forall p :: p in f ==> 0 <= JumpTarget(s.code, p, |s.code|, pf) <= |s.code|
    ensures var c1 := PatchAll(s.code, f, reg, |s.code|, pf);
      && IsList(c1, d.t, t)
      && (forall p :: p in t ==> 0 <= JumpTarget(c1, p, |s.code|, pt) <= |s.code|)
      && IsList(PatchAll(c1, t, reg, |s.code|, pt), jpc, s.jpc)
  {
    var c1 := PatchAll(s.code, f, reg, |s.code|, pf);
    var c2 := PatchAll(c1, t, reg, |s.code|, pt);
    PatchAllOthers(s.code, f, reg, |s.code|, pf);
    forall p | p in t || p in s.jpc
      ensures p < |s.code| && c1[p] == s.code[p]
    {
      assert s.code[p].Jmp?;
      OtherPatched(s.code, f, reg, |s.code|, pf, p);
    }
    KeepsList(s.code, c1, d.t, t);
    forall p | p in s.jpc
      ensures p < |c2| && c2[p] == s.code[p]
    {
      OtherPatched(c1, t, reg, |s.code|, pt, p);
    }
    KeepsList(s.code, c2, jpc, s.jpc);
  }

  // ----- the end of an expression -----

  /** A run that did not arrive in `s0` left by a jump that is not ours. */
  lemma ExitsOutside(vm: Vm, s0: State, s: State, own: set<nat>, r: Regs)
    requires Wf(s0) && Extends(s0, s, own)
    ensures Reach(vm, s0, r).Exit? ==> Reach(vm, s0, r).p !in own
  {
    ExitsPend(vm, s0.k, s0.code, s0.pend, 0, r);
  }

  lemma AroundExtends(s0: State, s: State, own: set<nat>, reg: nat, code': seq<Instr>)
    requires Wf(s0) && Wf(s) && Extends(s0, s, own)
    requires Relinked(BoolsAround(s, reg).code, code', [|s.code|] + s.jpc)
    ensures var s' := BoolsAround(s, reg).(code := code');
      Wf(s') && Extends(s0, s', own) && forall vm, r :: Reach(vm, s', r) == Reach(vm, s, r)
  {
    var b := BoolsAround(s, reg);
    Around(Anything(), s, reg, map[]);
    AlikeReach(Anything(), b, code', map[]);
    forall vm, r
      ensures Reach(vm, b.(code := code'), r) == Reach(vm, s, r)
    {
      Around(vm, s, reg, r);
      AlikeReach(vm, b, code', r);
    }
    forall p | p in s0.pend && p !in s0.jpc
      ensures p in s.pend && p !in b.jpc && Untouched(s0.code, code', p)
    {
      assert Untouched(s0.code, s.code, p);
    }
    forall p | p in own
      ensures p in b.pend && p !in b.jpc
    {
    }
  }

  /** The loads are where jumps without a value can go. */
  lemma AroundLoaders(s: State, t: seq<nat>, f: seq<nat>, reg: nat, code': seq<Instr>)
    requires Wf(s)
    requires forall p :: p in t || p in f ==> p in s.pend && p !in s.jpc && 0 < p < |s.code| && IsTest(s.code[p - 1])
    requires Relinked(BoolsAround(s, reg).code, code', [|s.code|] + s.jpc)
    ensures Loaders(code', t, f, reg, |s.code| + 1, |s.code| + 2)
    ensures SameControls(s.code, code', t) && SameControls(s.code, code', f)
  {
    var n, b := |s.code|, BoolsAround(s, reg);
    assert code'[n].Jmp? && code'[n + 1] == b.code[n + 1] && code'[n + 2] == b.code[n + 2];
    forall p | p in t || p in f
      ensures code'[p].Jmp? && code'[p - 1] == s.code[p - 1]
    {
      assert s.code[p].Jmp? && b.code[p] == s.code[p] && b.code[p - 1] == s.code[p - 1];
      assert !s.code[p - 1].Jmp?;
    }
  }

  lemma FinalExtends(s0: State, s: State, own: set<nat>, t: seq<nat>, f: seq<nat>, reg: nat, pf: int, pt: int)
    requires Extends(s0, s, own) && Wf(s) && own == SetOf(t) + SetOf(f)
    requires Distinct(t) && Distinct(f) && (forall p :: p in t ==> p !in f)
    requires forall p :: p in t || p in f ==> p in s.pend && p !in s.jpc
    requires Loaders(s.code, t, f, reg, pf, pt)
    ensures Extends(s0, Final(s, t, f, reg, pf, pt), {})
  {
    PatchExtends(s0, s, own, f, reg, pf);
    Patching(Anything(), s, f, reg, pf, map[]);
    PatchExtends(s0, Patch(s, f, reg, pf), own - SetOf(f), t, reg, pt);
    assert own - SetOf(f) - SetOf(t) == {};
  }

  /** An expression without jumps is computed once it is loaded. */
  lemma PlainComputes(vm: Vm, np: nat, s0: State, s: State, kind: Kind, n: nat, e: Expr, s': State, reg: nat)
    requires Means(vm, np, s0, s, kind, [], [], n, e) && Loads(vm, np, s, kind, s', reg)
    ensures Computes(vm, np, s0, s', reg, n, e)
  {
    forall r | Clean(r, np)
      ensures var o0, o := Reach(vm, s0, r), Reach(vm, s', r);
        if o0.Fall? then ComputesAt(reg, n, Eval(vm, e, o0.r), o0.r, o) else o == o0
    {
      MeansAt(vm, np, s0, s, kind, [], [], n, e, r);
    }
  }

  /** hasjumps compares the heads of the two lists. */
  lemma NoJumps(s: State, d: Desc, t: seq<nat>, f: seq<nat>)
    requires JumpsOk(s, d, t, f)
    ensures d.t == d.f <==> t == [] && f == []
  {
    if t != [] {
      assert t[0] in t;
    }
    if f != [] {
      assert f[0] in f;
    }
  }

  lemma JumpsFacts(s: State, d: Desc, t: seq<nat>, f: seq<nat>)
    requires JumpsOk(s, d, t, f)
    ensures IsList(s.code, d.t, t) && IsList(s.code, d.f, f) && Distinct(t) && Distinct(f)
    ensures forall p :: p in t ==> p !in f
    ensures forall p :: p in t || p in f ==>
      p in s.pend && p !in s.jpc && 0 < p < |s.code| && IsTest(s.code[p - 1]) && s.code[p].Jmp?
  {
  }

  lemma AllPatchable(code: seq<Instr>, t: seq<nat>, f: seq<nat>, reg: nat)
    requires forall p :: p in t || p in f ==> p < |code| && code[p].Jmp? && Patchable(code, p)
    ensures Loaders(code, t, f, reg, -1, -1)
  {
  }

  lemma OwnLists(kind: Kind, t: seq<nat>, f: seq<nat>)
    ensures !kind.VJmp? ==> Own(kind, t, f) + {} == SetOf(t) + SetOf(f)
    ensures kind.VJmp? ==> Own(kind, t, f) == SetOf(t + [kind.info]) + SetOf(f)
  {
  }

  lemma SetOfNone(t: seq<nat>, f: seq<nat>)
    requires t == [] && f == []
    ensures SetOf(t) + SetOf(f) == {}
  {
  }

  lemma ExitsNotIn(vm: Vm, np: nat, s0: State, s: State, t: seq<nat>, f: seq<nat>)
    requires Wf(s0) && Extends(s0, s, SetOf(t) + SetOf(f))
    ensures forall r :: Clean(r, np) && Reach(vm, s0, r).Exit? ==> Reach(vm, s0, r).p !in t && Reach(vm, s0, r).p !in f
  {
    forall r | Clean(r, np)
      ensures Reach(vm, s0, r).Exit? ==> Reach(vm, s0, r).p !in t && Reach(vm, s0, r).p !in f
    {
      ExitsOutside(vm, s0, s, SetOf(t) + SetOf(f), r);
    }
  }

  lemma SameTrans(c: seq<Instr>, c1: seq<Instr>, c2: seq<Instr>, l: seq<nat>)
    requires SameControls(c, c1, l) && SameControls(c1, c2, l)
    ensures SameControls(c, c2, l)
  {
  }

  lemma ControlsSame(c: seq<Instr>, t: seq<nat>, f: seq<nat>)
    requires forall p :: p in t || p in f ==> 0 < p < |c|
    ensures SameControls(c, c, t) && SameControls(c, c, f)
  {
  }

  lemma AroundJumps(s0: State, s: State, d: Desc, t: seq<nat>, f: seq<nat>, reg: nat, code': seq<Instr>)
    requires Wf(s0) && Wf(s) && d.kind == VNonReloc(reg) && JumpsOk(s, d, t, f) && Extends(s0, s, SetOf(t) + SetOf(f))
    requires Relinked(BoolsAround(s, reg).code, code', [|s.code|] + s.jpc)
    ensures var s' := BoolsAround(s, reg).(code := code');
      && JumpsOk(s', d, t, f) && Loaders(code', t, f, reg, |s.code| + 1, |s.code| + 2)
      && Extends(s0, s', SetOf(t) + SetOf(f)) && (forall vm, r :: Reach(vm, s', r) == Reach(vm, s, r))
    ensures SameControls(s.code, code', t) && SameControls(s.code, code', f)
  {
    hide *;
    var s' := BoolsAround(s, reg).(code := code');
    JumpsFacts(s, d, t, f);
    AroundExtends(s0, s, SetOf(t) + SetOf(f), reg, code');
    ExtendsSelf(s);
    AroundExtends(s, s, {}, reg, code');
    AroundLoaders(s, t, f, reg, code');
    TailFacts(s, d, t, f);
    JumpsOn(s, d, t, f, s', {}, VNonReloc(reg));
  }

  // ----- links carry no meaning -----

  lemma RelinkAlike(s: State, code': seq<Instr>, l: seq<nat>)
    requires Relinked(s.code, code', l) && forall p :: p in l ==> p in s.pend
    ensures Alike(s.code, code', s.pend)
  {
  }

  lemma RelinkBody(vm: Vm, s: State, kind: Kind, code': seq<Instr>, l: seq<nat>, r: Regs)
    requires Wf(Body(s, kind)) && Relinked(s.code, code', l)
    requires forall p :: p in l ==> p in Body(s, kind).pend
    ensures Wf(Body(s.(code := code'), kind))
    ensures Reach(vm, Body(s.(code := code'), kind), r) == Reach(vm, Body(s, kind), r)
  {
    var b, b' := Body(s, kind), Body(s.(code := code'), kind);
    assert b'.pend == b.pend;
    forall i | 0 <= i < |b.code|
      ensures b'.code[i] == b.code[i] || (i in l && b.code[i].Jmp? && b'.code[i].Jmp?)
    {
      assert b.code[i] == s.code[i] && b'.code[i] == code'[i];
    }
    RelinkAlike(b, b'.code, l);
    AlikeReach(vm, b, b'.code, r);
    assert b' == b.(code := b'.code);
  }

  lemma RelinkMeans(vm: Vm, np: nat, s0: State, s: State, kind: Kind, t: seq<nat>, f: seq<nat>, n: nat, e: Expr,
      code': seq<Instr>, l: seq<nat>)
    requires Means(vm, np, s0, s, kind, t, f, n, e) && Wf(Body(s, kind)) && Relinked(s.code, code', l)
    requires forall p :: p in l ==> p in Body(s, kind).pend
    ensures Means(vm, np, s0, s.(code := code'), kind, t, f, n, e)
  {
    var s' := s.(code := code');
    forall r
      ensures Main(vm, s', kind, r) == Main(vm, s, kind, r)
    {
    }
    forall r | Clean(r, np)
      ensures var o0, o := Reach(vm, s0, r), Reach(vm, Body(s', kind), r);
        if o0.Fall? then Delivers(vm, s', kind, t, f, n, Eval(vm, e, o0.r), o0.r, o) else o == o0
    {
      MeansAt(vm, np, s0, s, kind, t, f, n, e, r);
      RelinkBody(vm, s, kind, code', l, r);
    }
  }

  lemma RelinkBranches(vm: Vm, np: nat, s0: State, s: State, t: seq<nat>, f: seq<nat>, truth: bool, n: nat, e: Expr,
      code': seq<Instr>, l: seq<nat>)
    requires Branches(vm, np, s0, s, t, f, truth, n, e) && Wf(s) && Relinked(s.code, code', l)
    requires forall p :: p in l ==> p in s.pend
    ensures Branches(vm, np, s0, s.(code := code'), t, f, truth, n, e)
  {
    var s' := s.(code := code');
    forall r | Clean(r, np)
      ensures var o0, o := Reach(vm, s0, r), Reach(vm, s', r);
        if o0.Fall? then Decides(s'.code, t, f, truth, n, Eval(vm, e, o0.r), o0.r, o) else o == o0
    {
      BranchesAt(vm, np, s0, s, t, f, truth, n, e, r);
      RelinkAlike(s, code', l);
      AlikeReach(vm, s, code', r);
    }
  }

  /** The jump of a comparison joins the true list. */
  lemma OwnJump(s: State, d: Desc, t: seq<nat>, f: seq<nat>)
    requires JumpsOk(s, d, t, f) && d.kind.VJmp?
    ensures var p := d.kind.info;
      && IsList(s.code, p, [p]) && Distinct(t + [p]) && p in s.pend && p !in t && p !in f
      && 0 < p && p + 1 == |s.code| && s.code[p - 1].Compare? && s.jpc == [] && s.last <= p - 1 && s.code[p].Jmp?
      && (forall q :: q in t ==> q in Body(s, d.kind).pend)
  {
    assert LinkedAt(s.code, [d.kind.info], 0);
    var p := d.kind.info;
    forall q | q in t
      ensures q in Body(s, d.kind).pend
    {
      assert q != p && s.code[q].Jmp? && q != p - 1;
    }
  }

  /** After that, everything is as exp2reg needs it. */
  lemma CompareReady(vm: Vm, np: nat, s0: State, s: State, d: Desc, t: seq<nat>, f: seq<nat>, n: nat, e: Expr,
      code': seq<Instr>)
    requires Wf(s0) && Wf(s) && JumpsOk(s, d, t, f) && d.kind.VJmp? && Means(vm, np, s0, s, d.kind, t, f, n, e)
    requires Relinked(s.code, code', t) && Extends(s0, s, Own(d.kind, t, f))
    ensures var p, s' := d.kind.info, s.(code := code');
      && Wf(s') && Means(vm, np, s0, s', d.kind, t, f, n, e) && Jumps(vm, np, s', d.kind, s', p, true)
      && IsList(code', d.f, f) && code'[p] == s.code[p] && code'[p - 1] == s.code[p - 1]
      && Extends(s0, s', SetOf(t + [p]) + SetOf(f))
  {
    var p, s' := d.kind.info, s.(code := code');
    OwnJump(s, d, t, f);
    JumpsFacts(s, d, t, f);
    CompareJumps(vm, np, s, p);
    RelinkAlike(s, code', t);
    AlikeReach(vm, s, code', map[]);
    RelinkMeans(vm, np, s0, s, d.kind, t, f, n, e, code', t);
    CompareJumps(vm, np, s', p);
    KeepsList(s.code, code', d.f, f);
    OwnLists(d.kind, t, f);
    RelinkExtends(s0, s, Own(d.kind, t, f), code', t);
  }

  lemma AfterLoaders(s0: State, s: State, own: set<nat>, reg: nat)
    requires Wf(s0) && Wf(s) && s.jpc == [] && Extends(s0, s, own)
    ensures Extends(s0, BoolsAfter(s, reg), own)
  {
    var none: set<nat> := {};
    AppendExtends(s, [LoadBool(reg, false, true), LoadBool(reg, true, false)], s.pend, [], |s.code| + 2, none);
    ExtendsOn(s0, s, own, BoolsAfter(s, reg), none);
    assert own + none == own;
  }

  lemma AfterReady(s0: State, s: State, tl: int, t: seq<nat>, fl: int, f: seq<nat>, reg: nat)
    requires Wf(s0) && Wf(s) && s.jpc == [] && Extends(s0, s, SetOf(t) + SetOf(f))
    requires IsList(s.code, tl, t) && IsList(s.code, fl, f)
    ensures var s' := BoolsAfter(s, reg);
      && IsList(s'.code, tl, t) && IsList(s'.code, fl, f) && Wf(s')
      && (forall q :: q in t || q in f ==> q in s'.pend && q !in s'.jpc)
      && Loaders(s'.code, t, f, reg, |s.code|, |s.code| + 1)
      && Extends(s0, s', SetOf(t) + SetOf(f))
  {
    var s' := BoolsAfter(s, reg);
    KeepsList(s.code, s'.code, tl, t);
    KeepsList(s.code, s'.code, fl, f);
    After(Anything(), s, reg, map[]);
    forall q | q in t || q in f
      ensures q in s.pend
    {
      assert q in SetOf(t) + SetOf(f);
    }
    CompareLoaders(s, s', t, f, reg);
    AfterLoaders(s0, s, SetOf(t) + SetOf(f), reg);
  }

  /** A local is where it always was. */
  lemma LocalMeans(vm: Vm, np: nat, s0: State, s: State, i: nat, t: seq<nat>, f: seq<nat>, n: nat, e: Expr)
    requires Means(vm, np, s0, s, VLocal(i), t, f, n, e)
    ensures Means(vm, np, s0, s, VNonReloc(i), t, f, n, e)
  {
    forall r | Clean(r, np)
      ensures var o0, o := Reach(vm, s0, r), Reach(vm, s, r);
        if o0.Fall? then Delivers(vm, s, VNonReloc(i), t, f, n, Eval(vm, e, o0.r), o0.r, o) else o == o0
    {
      MeansAt(vm, np, s0, s, VLocal(i), t, f, n, e, r);
    }
  }

  lemma LocalJumps(s: State, d: Desc, t: seq<nat>, f: seq<nat>)
    requires JumpsOk(s, d, t, f) && d.kind.VLocal?
    ensures JumpsOk(s, d.(kind := VNonReloc(d.kind.info)), t, f)
    ensures Own(VNonReloc(d.kind.info), t, f) == Own(d.kind, t, f)
  {
  }

  lemma OwnPending(s0: State, s: State, t: seq<nat>, f: seq<nat>)
    requires Extends(s0, s, SetOf(t) + SetOf(f))
    ensures forall q :: q in t || q in f ==> q in s.pend && q !in s.jpc
  {
    assert forall q :: q in t || q in f ==> q in SetOf(t) + SetOf(f);
  }

  /** A comparison brings no value by itself. */
  lemma CompareNeeds(code: seq<Instr>, tl: int, t: seq<nat>, fl: int, f: seq<nat>, p: nat)
    requires IsList(code, tl, t + [p]) && IsList(code, fl, f) && forall q :: q in t + [p] ==> q !in f
    requires 0 < p < |code| && code[p - 1].Compare?
    ensures exists q :: q in t + [p] && q < |code| && !Patchable(code, q)
    ensures tl != fl && Distinct(t + [p]) && Distinct(f)
  {
    var l := t + [p];
    assert l[|t|] == p && p in l && !Patchable(code, p);
    assert l[0] in l && (f != [] ==> f[0] in f);
  }

  lemma ConstantProvides(vm: Vm, np: nat, s0: State, s: State, kind: Kind, n: nat, e: Expr, k': seq<Value>, idx: nat)
    requires Means(vm, np, s0, s, kind, [], [], n, e) && Wf(s) && s.k <= k' && idx < |k'|
    requires kind.VNil? || kind.VTrue? || kind.VFalse? || kind.VKNum?
    requires forall r :: Main(vm, s, kind, r) == Some(k'[idx])
    ensures Provides(vm, np, s0, s.(k := k'), idx + BITRK, n, e)
  {
    var s' := s.(k := k');
    forall r | Clean(r, np)
      ensures var o0, o := Reach(vm, s0, r), Reach(vm, s', r);
        if o0.Fall? then ProvidesAt(k', idx + BITRK, n, Eval(vm, e, o0.r), o0.r, o) else o == o0
    {
      MeansAt(vm, np, s0, s, kind, [], [], n, e, r);
      MoreConstants(vm, s, k', r);
    }
  }

  // ----- jumps on the value of an expression -----

  /** TESTSET on a register: it brings its value along. */
  lemma TestSetJumps(vm: Vm, np: nat, s: State, reg: nat, cond: bool)
    requires Wf(s)
    ensures var s' := EmitTest(s, TestSet(NO_REG, reg, cond));
      Wf(s') && Jumps(vm, np, s, VNonReloc(reg), s', |s.code| + 1, cond)
  {
    var i := TestSet(NO_REG, reg, cond);
    var s' := EmitTest(s, i);
    Tested(vm, s, i, map[]);
    assert s'.code[|s.code|] == i;
    forall r | Clean(r, np)
      ensures Reach(vm, s', r) == Branched(vm, Reach(vm, s, r), s.k, i, |s.code| + 1)
    {
      Tested(vm, s, i, r);
    }
  }

  /** A NOT at the end gives way to a TEST of its operand. */
  lemma NotJumps(vm: Vm, np: nat, s: State, a: nat, b: nat, cond: bool)
    requires Wf(s) && s.jpc == [] && s.code != [] && s.code[|s.code| - 1] == Not(a, b) && s.last <= |s.code| - 1
    ensures var body := Before(s, |s.code| - 1);
      var s' := EmitTest(body, Test(b, !cond));
      Wf(body) && body == s.(code := s.code[..|s.code| - 1]) && Wf(s') && Jumps(vm, np, s, VReloc(|s.code| - 1), s', |s.code|, cond)
  {
    var body := Before(s, |s.code| - 1);
    var i := Test(b, !cond);
    var s' := EmitTest(body, i);
    BodyOfNot(s);
    Tested(vm, body, i, map[]);
    assert s'.code[|s.code| - 1] == i;
    forall r | Clean(r, np)
      ensures Reach(vm, s', r) == Branched(vm, Reach(vm, body, r), s.k, i, |s.code|)
    {
      Tested(vm, body, i, r);
    }
  }

  function Inverted(i: Instr): Instr {
    match i
    case Compare(op, cond, b, c) => Compare(op, !cond, b, c)
    case _ => i
  }

  /** invertjump: the comparison jumps when it does not hold. */
  lemma InvertJumps(vm: Vm, np: nat, s: State, p: nat, i: Instr)
    requires Wf(s) && s.jpc == [] && 0 < p && p + 1 == |s.code| && s.last <= p - 1
    requires s.code[p - 1].Compare? && s.code[p].Jmp? && p in s.pend
    requires i == Inverted(s.code[p - 1])
    ensures var s' := s.(code := s.code[p - 1 := i]);
      Wf(s') && Jumps(vm, np, s, VJmp(p), s', p, false) && Body(s', VJmp(p)) == Body(s, VJmp(p))
  {
    var s' := s.(code := s.code[p - 1 := i]);
    forall j | 0 <= j < |s'.code|
      ensures InstrOk(s'.code, s'.pend, |s'.k|, s'.last, j)
    {
      assert InstrOk(s.code, s.pend, |s.k|, s.last, j);
    }
    assert s'.code[..p - 1] == s.code[..p - 1];
    if p >= 2 {
      assert InstrOk(s.code, s.pend, |s.k|, s.last, p - 2);
    }
    forall r | Clean(r, np)
      ensures Reach(vm, s', r) == Branched(vm, Reach(vm, Body(s, VJmp(p)), r), s.k, i, p)
    {
      CompareReach(vm, s', p, r);
    }
  }

  lemma InvertExtends(s0: State, s: State, own: set<nat>, p: nat, i: Instr)
    requires Extends(s0, s, own) && 0 < p < |s.code| && p in own && p in s.pend && IsTest(s.code[p - 1]) && IsTest(i)
      && Wf(s)
    ensures Extends(s0, s.(code := s.code[p - 1 := i]), own)
  {
    var code' := s.code[p - 1 := i];
    forall q | q in s0.pend && q !in s0.jpc
      ensures Untouched(s0.code, code', q)
    {
      assert Untouched(s0.code, s.code, q) && s.code[q].Jmp?;
    }
  }

  /** The lists of an expression and the jump that may have been added. */
  ghost predicate Apart(s: State, a: seq<nat>, l: seq<nat>, b: seq<nat>) {
    && Distinct(a + l) && Distinct(b)
    && (forall p :: p in a + l ==> p !in b)
    && (forall p :: p in a + l || p in b ==> p in s.pend && p !in s.jpc && 0 < p < |s.code| && IsTest(s.code[p - 1]))
  }

  lemma DistinctJoin(a: seq<nat>, b: seq<nat>)
    requires Distinct(a) && Distinct(b) && forall p :: p in b ==> p !in a
    ensures Distinct(a + b)
  {
    forall i, j | 0 <= i < j < |a + b|
      ensures (a + b)[i] != (a + b)[j]
    {
      if i < |a| && |a| <= j {
        assert b[j - |a|] in b && a[i] in a;
      }
    }
  }

  /** What luaK_concat and luaK_patchtohere make of the branches. */
  lemma JoinedBranches(vm: Vm, np: nat, s0: State, s: State, a: seq<nat>, l: seq<nat>, b: seq<nat>, truth: bool, n: nat,
      e: Expr,
                       code1: seq<Instr>, code2: seq<Instr>)
    requires Wf(s0) && Wf(s) && Apart(s, a, l, b)
    requires Branches(vm, np, s0, s, if truth then b else a + l, if truth then a + l else b, truth, n, e)
    requires Extends(s0, s, SetOf(a + l) + SetOf(b))
    requires Relinked(s.code, code1, a) && Relinked(code1, code2, s.jpc)
    ensures var s' := ToHere(s, b).(code := code2);
      && Wf(s') && Branches(vm, np, s0, s', if truth then [] else a + l, if truth then a + l else [], truth, n, e)
      && Extends(s0, s', SetOf(a + l))
  {
    var s1 := s.(code := code1);
    assert forall p :: p in a ==> p in a + l;
    RelinkAlike(s, code1, a);
    AlikeReach(vm, s, code1, map[]);
    RelinkBranches(vm, np, s0, s, if truth then b else a + l, if truth then a + l else b, truth, n, e, code1, a);
    RelinkExtends(s0, s, SetOf(a + l) + SetOf(b), code1, a);
    DistinctJoin(s.jpc, b);
    ExitsNotIn(vm, np, s0, s1, a + l, b);
    HereBranches(vm, np, s0, s1, if truth then b else a + l, if truth then a + l else b, truth, n, e);
    Arrived(vm, s1, b, map[]);
    var s2 := ToHere(s1, b);
    RelinkAlike(s2, code2, s.jpc);
    AlikeReach(vm, s2, code2, map[]);
    RelinkBranches(vm, np, s0, s2, if truth then [] else a + l, if truth then a + l else [], truth, n, e, code2, s.jpc);
    HereExtends(s0, s1, SetOf(a + l) + SetOf(b), b, s2.(code := code2));
    assert SetOf(a + l) + SetOf(b) - SetOf(b) == SetOf(a + l);
  }

  lemma Longer(s0: State, s: State, s': State, kind: Kind)
    requires |s0.code| <= |Body(s, kind).code| && Extends(s, s', {})
    ensures |s0.code| <= |s'.code|
  {
  }

  /** A test and its jump follow: the lists of the expression stay. */
  lemma TestAdded(s0: State, s: State, own: set<nat>, d: Desc, t: seq<nat>, f: seq<nat>, i: Instr)
    requires Wf(s0) && Wf(s) && ListsIn(s, d, t, f) && Extends(s0, s, own) && own == SetOf(t) + SetOf(f) && IsTest(i)
    ensures var s', j := EmitTest(s, i), |s.code| + 1;
      && ListsIn(s', d, t, f) && j !in t && j !in f && j in s'.pend && |s'.code| == j + 1 && s'.code[j - 1] == i
        && s'.jpc == []
      && Extends(s0, s', own + {j})
      && SameControls(s.code, s'.code, t) && SameControls(s.code, s'.code, f)
  {
    var s', j := EmitTest(s, i), |s.code| + 1;
    TestExtends(s, i);
    ListOn(s, s', {j}, d.t, t);
    ListOn(s, s', {j}, d.f, f);
    ControlsOn(s, s', {j}, t);
    ControlsOn(s, s', {j}, f);
    ExtendsOn(s0, s, own, s', {j});
  }

  /** Removing a NOT at the end leaves the lists. */
  lemma NotTaken(s0: State, s: State, d: Desc, t: seq<nat>, f: seq<nat>)
    requires Wf(s0) && Wf(s) && JumpsOk(s, d, t, f) && d.kind.VReloc? && Extends(s0, s, Own(d.kind, t, f))
    requires |s0.code| <= |Body(s, d.kind).code|
    ensures var b := Before(s, |s.code| - 1);
      && ListsIn(b, d, t, f) && Extends(s0, b, SetOf(t) + SetOf(f))
      && SameControls(s.code, b.code, t) && SameControls(s.code, b.code, f)
  {
    var n := |s.code| - 1;
    var b := Before(s, n);
    forall p | p in t || p in f
      ensures p < n && b.code[p] == s.code[p] && b.code[p - 1] == s.code[p - 1]
    {
      assert s.code[p].Jmp?;
    }
    KeepsList(s.code, b.code, d.t, t);
    KeepsList(s.code, b.code, d.f, f);
    BeforeExtends(s0, s, Own(d.kind, t, f), n);
    assert (set p | p in Own(d.kind, t, f) && p < n) == SetOf(t) + SetOf(f);
  }

  lemma ListsOf(s: State, d: Desc, t: seq<nat>, f: seq<nat>)
    requires JumpsOk(s, d, t, f)
    ensures ListsIn(s, d, t, f)
  {
  }

  /** The new jump joins one of the lists. */
  lemma NewApart(s: State, d: Desc, t: seq<nat>, f: seq<nat>, j: nat)
    requires ListsIn(s, d, t, f) && j !in t && j !in f && j in s.pend && j !in s.jpc && 0 < j < |s.code|
      && IsTest(s.code[j - 1])
    ensures Apart(s, f, [j], t) && Apart(s, t, [j], f)
    ensures SetOf(f + [j]) + SetOf(t) == SetOf(t) + SetOf(f) + {j} == SetOf(t + [j]) + SetOf(f)
  {
    DistinctJoin(t, [j]);
    DistinctJoin(f, [j]);
  }

  lemma NoneApart(s: State, d: Desc, t: seq<nat>, f: seq<nat>)
    requires ListsIn(s, d, t, f)
    ensures Apart(s, f, [], t) && Apart(s, t, [], f) && t + [] == t && f + [] == f
    ensures SetOf(f + []) + SetOf(t) == SetOf(t) + SetOf(f) == SetOf(t + []) + SetOf(f)
  {
    assert f + [] == f && t + [] == t;
  }

  /** The lists while one of them is extended. */
  lemma JoinLists(s: State, a: seq<nat>, l: seq<nat>, b: seq<nat>, code1: seq<Instr>, bl: int, jpc: int)
    requires Apart(s, a, l, b) && IsList(s.code, bl, b) && IsList(s.code, jpc, s.jpc) && Relinked(s.code, code1, a)
    ensures IsList(code1, bl, b) && IsList(code1, jpc, s.jpc) && Distinct(s.jpc + b)
  {
    assert forall p :: p in a ==> p in a + l;
    KeepsList(s.code, code1, bl, b);
    KeepsList(s.code, code1, jpc, s.jpc);
    DistinctJoin(s.jpc, b);
  }

  lemma JoinedList(s: State, a: seq<nat>, l: seq<nat>, b: seq<nat>, code1: seq<Instr>, code2: seq<Instr>, head: int)
    requires Apart(s, a, l, b) && Relinked(s.code, code1, a) && Relinked(code1, code2, s.jpc)
      && IsList(code1, head, a + l)
    ensures IsList(code2, head, a + l)
    ensures forall p :: p in a + l ==> 0 < p < |code2| && IsTest(code2[p - 1])
  {
    KeepsList(code1, code2, head, a + l);
    forall p | p in a + l
      ensures 0 < p < |code2| && IsTest(code2[p - 1])
    {
      assert IsTest(s.code[p - 1]);
    }
  }

  lemma ConstantTruth(vm: Vm, np: nat, s0: State, s: State, d: Desc, t: seq<nat>, f: seq<nat>, n: nat, e: Expr,
      truth: bool)
    requires Means(vm, np, s0, s, d.kind, t, f, n, e) && JumpsOk(s, d, t, f)
    requires if truth then d.kind.VK? || d.kind.VKNum? || d.kind.VTrue? else d.kind.VNil? || d.kind.VFalse?
    ensures Branches(vm, np, s0, s, t, f, truth, n, e)
  {
    ConstantBranches(vm, np, s0, s, d.kind, t, f, n, e, truth);
  }

  lemma ControlsOf(s: State, d: Desc, t: seq<nat>, f: seq<nat>)
    requires JumpsOk(s, d, t, f)
    ensures SameControls(s.code, s.code, t) && SameControls(s.code, s.code, f)
  {
  }

  /** The jump of a comparison next to the lists. */
  lemma CompareApart(s: State, d: Desc, t: seq<nat>, f: seq<nat>)
    requires ListsIn(s, d, t, f) && d.kind.VJmp? && d.kind.info !in t && d.kind.info !in f && d.kind.info in s.pend
    requires 0 < d.kind.info && d.kind.info + 1 == |s.code| && s.code[d.kind.info - 1].Compare? && s.jpc == []
    ensures Apart(s, f, [d.kind.info], t) && Apart(s, t, [d.kind.info], f)
    ensures Own(d.kind, t, f) == SetOf(f + [d.kind.info]) + SetOf(t) == SetOf(t + [d.kind.info]) + SetOf(f)
  {
    NewApart(s, d, t, f, d.kind.info);
  }

  /** All that inverting the comparison at the end does. */
  lemma Inversion(vm: Vm, np: nat, s0: State, s: State, d: Desc, t: seq<nat>, f: seq<nat>, p: nat, code': seq<Instr>)
    requires Wf(s0) && Wf(s) && JumpsOk(s, d, t, f) && d.kind == VJmp(p) && Extends(s0, s, Own(d.kind, t, f))
    requires 0 < p < |s.code| && code' == s.code[p - 1 := Inverted(s.code[p - 1])]
    ensures var s' := s.(code := code');
      && Wf(s') && ListsIn(s', d, t, f) && Jumps(vm, np, s, d.kind, s', p, false)
      && SameControls(s.code, code', t) && SameControls(s.code, code', f)
      && Extends(s0, s', Own(d.kind, t, f)) && Body(s', d.kind) == Body(s, d.kind)
      && IsList(code', p, [p]) && p in s'.pend && p !in t && p !in f && 0 < p && p + 1 == |code'|
        && code'[p - 1].Compare? && s'.jpc == []
  {
    var s' := s.(code := code');
    OwnJump(s, d, t, f);
    InvertJumps(vm, np, s, p, Inverted(s.code[p - 1]));
    InvertExtends(s0, s, Own(d.kind, t, f), p, Inverted(s.code[p - 1]));
    forall q | q in t || q in f
      ensures q < |s.code| && code'[q] == s.code[q] && q - 1 != p - 1 && IsTest(code'[q - 1])
        && code'[q - 1] == s.code[q - 1]
    {
      assert s.code[q].Jmp?;
    }
    KeepsList(s.code, code', d.t, t);
    KeepsList(s.code, code', d.f, f);
    assert LinkedAt(code', [p], 0);
  }

  lemma HereIs(s: State, l: seq<nat>, code1: seq<Instr>, code2: seq<Instr>)
    requires |code1| == |s.code|
    ensures ToHere(s.(code := code1), l).(code := code2) == ToHere(s, l).(code := code2)
  {
  }

  // ----- not -----

  /** Both lists lose their values. */
  function NoLonger(code: seq<Instr>, t: seq<nat>, f: seq<nat>): (r: seq<Instr>)
    ensures |r| == |code|
  {
    WithoutValues(WithoutValues(code, t), f)
  }

  lemma NoLongerAt(code: seq<Instr>, t: seq<nat>, f: seq<nat>, i: nat)
    requires i < |code| && forall p :: p in t || p in f ==> p < |code|
    ensures var code' := NoLonger(code, t, f);
      code'[i] == if code[i].TestSet? && (i + 1 in t || i + 1 in f) then Test(code[i].b, code[i].cond) else code[i]
  {
    WithoutAt(code, t, i);
    WithoutAt(WithoutValues(code, t), f, i);
  }

  /** What the jumps of `not e` are like, when those of `e` were in order. */
  lemma NoLongerJumps(s0: State, s: State, d: Desc, t: seq<nat>, f: seq<nat>)
    requires Wf(s0) && Wf(s) && JumpsOk(s, d, t, f) && Extends(s0, s, Own(d.kind, t, f))
    ensures var s' := s.(code := NoLonger(s.code, t, f));
      && Wf(s') && JumpsOk(s', Desc(d.kind, d.f, d.t), f, t) && Extends(s0, s', Own(d.kind, f, t))
      && NoValues(s'.code, t) && NoValues(s'.code, f)
      && Alike(s.code, s'.code, s.pend) && |Body(s', d.kind).code| == |Body(s, d.kind).code|
      && forall p :: 0 <= p < |s.code| && s.code[p].Jmp? ==> s'.code[p] == s.code[p]
  {
    var code' := NoLonger(s.code, t, f);
    forall i | 0 <= i < |s.code|
      ensures code'[i] == if s.code[i].TestSet?
        && (i + 1 in t || i + 1 in f) then Test(s.code[i].b, s.code[i].cond) else s.code[i]
      ensures code'[i]
        == s.code[i] || (s.code[i].TestSet? && s.code[i].a == NO_REG && code'[i] == Test(s.code[i].b, s.code[i].cond))
    {
      NoLongerAt(s.code, t, f, i);
      assert InstrOk(s.code, s.pend, |s.k|, s.last, i);
    }
    AlikeReach(Anything(), s, code', map[]);
    KeepsList(s.code, code', d.t, t);
    KeepsList(s.code, code', d.f, f);
    assert Own(d.kind, f, t) == Own(d.kind, t, f);
    forall q | q in s0.pend && q !in s0.jpc
      ensures Untouched(s0.code, code', q)
    {
      assert Untouched(s0.code, s.code, q) && s.code[q].Jmp?;
      assert q !in t && q !in f by {
        assert q !in Own(d.kind, t, f);
      }
    }
  }

  lemma NoLongerReach(vm: Vm, s: State, kind: Kind, code': seq<Instr>, r: Regs)
    requires Wf(Body(s, kind)) && Alike(s.code, code', s.pend)
    requires forall p :: 0 <= p < |s.code| && s.code[p].Jmp? ==> code'[p] == s.code[p]
    ensures Reach(vm, Body(s.(code := code'), kind), r) == Reach(vm, Body(s, kind), r)
  {
    var b, b' := Body(s, kind), Body(s.(code := code'), kind);
    forall i | 0 <= i < |b.code|
      ensures b'.code[i]
        == b.code[i] || (b.code[i].TestSet? && b.code[i].a == NO_REG && b'.code[i] == Test(b.code[i].b, b.code[i].cond))
    {
      assert b.code[i] == s.code[i] && b'.code[i] == code'[i];
    }
    AlikeReach(vm, b, b'.code, r);
    assert b' == b.(code := b'.code);
  }

  /** `s`, `kind` is a state in which the value of `e` is found, and in `s1`,
      `kind1` it is negated. */
  ghost predicate Negates(vm: Vm, np: nat, s: State, kind: Kind, s1: State, kind1: Kind) {
    true <==> (
      && (forall r :: Clean(r, np) ==> Reach(vm, Body(s1, kind1), r) == Reach(vm, Body(s, kind), r))
      && (forall r :: Main(vm, s1, kind1, r) == Negated(Main(vm, s, kind, r)))
    )
  }

  lemma NoLongerMeans(vm: Vm, np: nat, s0: State, s: State, kind: Kind, t: seq<nat>, f: seq<nat>, n: nat, e: Expr,
      s1: State, d1: Desc)
    requires Wf(s0) && Wf(s1) && Wf(Body(s1, d1.kind))
    requires Means(vm, np, s0, s, kind, t, f, n, e) && Negates(vm, np, s, kind, s1, d1.kind)
    requires JumpsOk(s1, d1, t, f) && Extends(s0, s1, Own(d1.kind, t, f))
    ensures Means(vm, np, s0, s1.(code := NoLonger(s1.code, t, f)), d1.kind, f, t, n, ENot(e))
  {
    var s' := s1.(code := NoLonger(s1.code, t, f));
    NoLongerJumps(s0, s1, d1, t, f);
    forall r | Clean(r, np)
      ensures Reach(vm, Body(s', d1.kind), r) == Reach(vm, Body(s, kind), r)
    {
      NoLongerReach(vm, s1, d1.kind, s'.code, r);
    }
    forall r
      ensures Main(vm, s', d1.kind, r) == Negated(Main(vm, s, kind, r))
    {
      assert Main(vm, s', d1.kind, r) == Main(vm, s1, d1.kind, r);
    }
    NotMeans(vm, np, s0, s, kind, t, f, n, e, s', d1.kind);
  }

  /** A constant turns into its negation. */
  lemma ConstantNegates(vm: Vm, np: nat, s: State, d: Desc, t: seq<nat>, f: seq<nat>, kind1: Kind)
    requires JumpsOk(s, d, t, f) && Wf(s)
    requires if d.kind.VNil? || d.kind.VFalse? then kind1
      == VTrue else (d.kind.VK? || d.kind.VKNum? || d.kind.VTrue?) && kind1 == VFalse
    ensures Negates(vm, np, s, d.kind, s, kind1) && JumpsOk(s, d.(kind := kind1), t, f)
      && Own(kind1, t, f) == Own(d.kind, t, f)
    ensures Body(s, kind1) == Body(s, d.kind) == s
  {
  }

  /** So does a comparison that is inverted. */
  lemma CompareNegates(vm: Vm, np: nat, s0: State, s: State, d: Desc, t: seq<nat>, f: seq<nat>, p: nat,
      code': seq<Instr>)
    requires Wf(s0) && Wf(s) && JumpsOk(s, d, t, f) && d.kind == VJmp(p) && Extends(s0, s, Own(d.kind, t, f))
    requires 0 < p < |s.code| && code' == s.code[p - 1 := Inverted(s.code[p - 1])]
    ensures var s' := s.(code := code');
      && Negates(vm, np, s, d.kind, s', d.kind) && JumpsOk(s', d, t, f) && Wf(Body(s', d.kind)) && Wf(s')
  {
    var s' := s.(code := code');
    OwnJump(s, d, t, f);
    Inversion(vm, np, s0, s, d, t, f, p, code');
    CompareJumps(vm, np, s, p);
    forall r
      ensures Main(vm, s', d.kind, r) == Negated(Main(vm, s, d.kind, r))
    {
    }
  }

  /** And so does the result of a NOT instruction. */
  lemma EmitNegates(vm: Vm, np: nat, s0: State, s: State, reg: nat, d: Desc, t: seq<nat>, f: seq<nat>)
    requires Wf(s0) && Wf(s) && d.kind == VNonReloc(reg) && JumpsOk(s, d, t, f)
    requires Extends(s0, s, SetOf(t) + SetOf(f)) && |s0.code| <= |s.code|
    ensures var s' := Emit(s, Not(0, reg));
      var kind := VReloc(|s.code|);
      && Wf(s') && Negates(vm, np, s, d.kind, s', kind) && JumpsOk(s', d.(kind := kind), t, f)
      && Wf(Body(s', kind)) && Extends(s0, s', Own(kind, t, f)) && |s0.code| <= |Body(s', kind).code|
  {
    var i := Not(0, reg);
    var s', d1, kind := Emit(s, i), Discharge(s), VReloc(|s.code|);
    Emitted(vm, s, i, map[]);
    Discharged(vm, s, map[]);
    EmitExtends(s, i);
    assert s'.code[..|s.code|] == d1.code;
    assert Body(s', kind) == d1 by {
      assert forall p :: p in d1.pend ==> p < |s.code|;
      assert (set p | p in s'.pend && p < |s.code|) == d1.pend;
    }
    forall r | Clean(r, np)
      ensures Reach(vm, Body(s', kind), r) == Reach(vm, s, r)
    {
      Discharged(vm, s, r);
    }
    if s.jpc != [] {
      assert s.last == |s.code|;
    }
    JumpsOn(s, d, t, f, s', {}, kind);
    ExtendsOn(s0, s, SetOf(t) + SetOf(f), s', {});
    assert Own(kind, t, f) == SetOf(t) + SetOf(f) + {};
  }

  lemma SelfBody(s: State, kind: Kind)
    ensures !kind.VReloc? && !kind.VJmp? ==> Body(s, kind) == s
  {
  }

  lemma EmitIs(s: State, i: Instr)
    ensures |Emit(s, i).code| == |s.code| + 1 && Emit(s, i).jpc == [] && Emit(s, i).k == s.k
  {
  }

  lemma NoLongerIs(code: seq<Instr>, t: seq<nat>, f: seq<nat>)
    ensures NoLonger(code, t, f) == WithoutValues(WithoutValues(code, t), f)
  {
  }

  lemma NoLongerList(s: State, d: Desc, t: seq<nat>, f: seq<nat>, jpc: int)
    requires IsList(s.code, d.t, t) && IsList(s.code, d.f, f) && IsList(s.code, jpc, s.jpc)
    ensures IsList(WithoutValues(s.code, t), d.f, f)
    ensures IsList(NoLonger(s.code, t, f), jpc, s.jpc)
  {
    forall p | 0 <= p < |s.code| && s.code[p].Jmp?
      ensures WithoutValues(s.code, t)[p] == s.code[p] && NoLonger(s.code, t, f)[p] == s.code[p]
    {
      WithoutAt(s.code, t, p);
      NoLongerAt(s.code, t, f, p);
    }
    KeepsList(s.code, WithoutValues(s.code, t), d.f, f);
    KeepsList(s.code, NoLonger(s.code, t, f), jpc, s.jpc);
  }

  // ----- comparisons -----

  /** The state after codecomp describes the comparison. */
  lemma CompareCompiled(vm: Vm, np: nat, s0: State, s1: State, x: nat, n0: nat, a: Expr, s2: State, y: nat, n1: nat,
      b: Expr,
                        op: RelOp, c: CompOp, cond: bool, s: State, d: Desc)
    requires Wf(s0) && Wf(s2) && Provides(vm, np, s0, s1, x, n0, a) && Provides(vm, np, s1, s2, y, n1, b)
    requires Extends(s0, s1, {}) && Extends(s1, s2, {})
    requires n0 <= n1 && LocalsBelow(b, n0)
    requires if IsK(x) then x - BITRK < |s1.k| else x < n1
    requires OperandOk(|s2.k|, x) && OperandOk(|s2.k|, y)
    requires ComparesAs(op, c, (!cond && c != EQ) || cond, !cond && c != EQ)
    requires s == EmitTest(s2, if !cond && c != EQ then Compare(c, true, y, x) else Compare(c, cond, x, y))
    requires d == Desc(VJmp(|s.code| - 1), -1, -1)
    ensures JumpsOk(s, d, [], []) && Means(vm, np, s0, s, d.kind, [], [], n0, ECompare(op, a, b))
    ensures Extends(s0, s, Own(d.kind, [], [])) && |s0.code| <= |Body(s, d.kind).code|
  {
    var swap := !cond && c != EQ;
    var i := if swap then Compare(c, true, y, x) else Compare(c, cond, x, y);
    assert s1.k <= s2.k;
    hide *;
    CompareMeans(vm, np, s0, s1, x, n0, a, s2, y, n1, b, op, c, swap || cond, swap, s);
    CompareTail(s0, s1, s2, i, s, d);
  }

  lemma CompareTail(s0: State, s1: State, s2: State, i: Instr, s: State, d: Desc)
    requires Wf(s0) && Wf(s2) && Extends(s0, s1, {}) && Extends(s1, s2, {}) && i.Compare?
    requires s == EmitTest(s2, i) && d == Desc(VJmp(|s.code| - 1), -1, -1)
    ensures JumpsOk(s, d, [], [])
    ensures Extends(s0, s, Own(d.kind, [], [])) && |s0.code| <= |Body(s, d.kind).code|
  {
    var p := |s2.code| + 1;
    BodyOfTest(s2, i);
    var none: set<nat> := {};
    ExtendsOn(s0, s1, none, s2, none);
    assert none + none == none;
    TestExtends(s2, i);
    ExtendsOn(s0, s2, none, s, {p});
    assert Own(VJmp(p), [], []) == none + {p};
    assert s.code[p - 1] == i && s.code[p] == Jmp(-1);
    Discharged(Anything(), s2, map[]);
    if s2.jpc != [] {
      assert s2.last == |s2.code|;
    }
  }

  // ----- and, or -----

  lemma BodyWf(s: State, d: Desc, t: seq<nat>, f: seq<nat>)
    requires Wf(s) && JumpsOk(s, d, t, f)
    ensures Wf(Body(s, d.kind))
    ensures forall p :: p in t || p in f ==> p in Body(s, d.kind).pend
  {
    if d.kind.VReloc? {
      BodyOfNot(s);
    } else if d.kind.VJmp? {
      CompareJumps(Anything(), 0, s, d.kind.info);
    }
    forall p | p in t || p in f
      ensures p in Body(s, d.kind).pend
    {
      assert s.code[p].Jmp?;
    }
  }

  /** The jumps out of the first operand, while the second was compiled. */
  lemma FirstJumps(s0: State, s1: State, l1: seq<nat>, s: State, d: Desc, t: seq<nat>, f: seq<nat>)
    requires Extends(s0, s1, SetOf(l1)) && Extends(s1, s, Own(d.kind, t, f)) && JumpsOk(s, d, t, f)
    requires forall p :: p in l1 ==> 0 < p < |s1.code| && IsTest(s1.code[p - 1])
    ensures SameControls(s1.code, s.code, l1)
    ensures forall p :: p in l1 ==>
      p in s.pend && p !in s.jpc && p !in t && p !in f && 0 < p < |s.code| && IsTest(s.code[p - 1]) && !(d.kind.VJmp? && d.kind.info == p)
    ensures Extends(s0, s, SetOf(l1) + Own(d.kind, t, f)) && |s0.code| <= |s1.code|
  {
    forall p | p in l1
      ensures p in s1.pend && p !in s1.jpc && p !in Own(d.kind, t, f)
    {
      assert p in SetOf(l1);
    }
    ControlsOn(s1, s, Own(d.kind, t, f), l1);
    ExtendsOn(s0, s1, SetOf(l1), s, Own(d.kind, t, f));
  }

  lemma FirstList(s0: State, s1: State, l1: seq<nat>, head1: int, s: State, own: set<nat>)
    requires Extends(s0, s1, SetOf(l1)) && Extends(s1, s, own) && IsList(s1.code, head1, l1)
    ensures IsList(s.code, head1, l1)
  {
    forall p | p in l1
      ensures p in s1.pend && p !in s1.jpc
    {
      assert p in SetOf(l1);
    }
    ListOn(s1, s, own, head1, l1);
  }

  /** One list of the second operand is extended by the jumps out of the first. */
  lemma JoinedJumps(s: State, d: Desc, t: seq<nat>, f: seq<nat>, l1: seq<nat>, s': State, d': Desc, t': seq<nat>,
      f': seq<nat>)
    requires Wf(s) && JumpsOk(s, d, t, f) && d'.kind == d.kind && s' == s.(code := s'.code)
    requires forall p :: p in l1 ==>
      p in s.pend && p !in s.jpc && p !in t && p !in f && 0 < p < |s.code| && IsTest(s.code[p - 1]) && !(d.kind.VJmp? && d.kind.info == p)
    requires IsList(s'.code, d'.t, t') && IsList(s'.code, d'.f, f')
    requires (Relinked(s.code, s'.code, t) && t' == t + l1 && f' == f) || (Relinked(s.code, s'.code, f) && t' == t && f' == f + l1)
    ensures Wf(s') && JumpsOk(s', d', t', f') && Own(d.kind, t', f') == SetOf(l1) + Own(d.kind, t, f)
    ensures |Body(s', d.kind).code| == |Body(s, d.kind).code|
  {
    var code' := s'.code;
    ListsOf(s, d, t, f);
    JoinedTail(s, d, t, f, l1, code', t', f');
    if t' == t + l1 && Relinked(s.code, code', t) && f' == f {
      RelinkAlike(s, code', t);
      JoinedControls(s, t, l1, f, code');
    } else {
      RelinkAlike(s, code', f);
      JoinedControls(s, f, l1, t, code');
    }
    AlikeReach(Anything(), s, code', map[]);
  }

  lemma JoinedTail(s: State, d: Desc, t: seq<nat>, f: seq<nat>, l1: seq<nat>, code': seq<Instr>, t': seq<nat>,
      f': seq<nat>)
    requires JumpsOk(s, d, t, f) && (Relinked(s.code, code', t) || Relinked(s.code, code', f))
    requires forall p :: p in l1 ==> !(d.kind.VJmp? && d.kind.info == p)
    requires (t' == t + l1 && f' == f) || (t' == t && f' == f + l1)
    ensures TailOk(s.(code := code'), d.kind, t', f') && Own(d.kind, t', f') == SetOf(l1) + Own(d.kind, t, f)
    ensures |Body(s.(code := code'), d.kind).code| == |Body(s, d.kind).code|
  {
    if d.kind.VJmp? {
      assert code'[d.kind.info] == s.code[d.kind.info];
    }
  }

  /** Tests are no jumps, so relinking leaves them. */
  lemma JoinedControls(s: State, a: seq<nat>, l1: seq<nat>, b: seq<nat>, code': seq<Instr>)
    requires Relinked(s.code, code', a)
    requires forall p :: p in a || p in l1 || p in b ==>
      p in s.pend && p !in s.jpc && 0 < p < |s.code| && IsTest(s.code[p - 1])
    requires (forall p :: p in a ==> p !in b) && (forall p :: p in l1 ==> p !in b)
    ensures forall p :: p in a + l1 || p in b ==> p in s.pend && p !in s.jpc && 0 < p < |code'| && IsTest(code'[p - 1])
    ensures forall p :: p in a + l1 ==> p !in b
    ensures forall p :: p in b ==> p !in a + l1
  {
  }

  lemma OtherList(s: State, head: int, l: seq<nat>, other: seq<nat>, code': seq<Instr>)
    requires IsList(s.code, head, l) && Relinked(s.code, code', other) && forall p :: p in l ==> p !in other
    ensures IsList(code', head, l)
  {
    KeepsList(s.code, code', head, l);
  }

  lemma AndCompiled(vm: Vm, np: nat, s0: State, s1: State, l1: seq<nat>, s: State, d: Desc, t: seq<nat>, f: seq<nat>,
      n: nat,
                    a: Expr, b: Expr, code': seq<Instr>, head: int)
    requires Wf(s0) && Wf(s) && Branches(vm, np, s0, s1, [], l1, true, n, a) && Extends(s0, s1, SetOf(l1))
    requires forall p :: p in l1 ==> 0 < p < |s1.code| && IsTest(s1.code[p - 1])
    requires Means(vm, np, s1, s, d.kind, t, f, n, b) && JumpsOk(s, d, t, f) && Extends(s1, s, Own(d.kind, t, f))
    requires |s1.code| <= |Body(s, d.kind).code| && LocalsBelow(b, n)
    requires Relinked(s.code, code', f) && IsList(code', head, f + l1)
    ensures var s', d' := s.(code := code'), d.(f := head);
      && Wf(s') && Means(vm, np, s0, s', d.kind, t, f + l1, n, EAnd(a, b)) && JumpsOk(s', d', t, f + l1)
      && Extends(s0, s', Own(d.kind, t, f + l1)) && |s0.code| <= |Body(s', d.kind).code|
  {
    FirstJumps(s0, s1, l1, s, d, t, f);
    BodyWf(s, d, t, f);
    JumpsFacts(s, d, t, f);
    AndMeans(vm, np, s0, s1, l1, s, d.kind, t, f, n, a, b);
    RelinkMeans(vm, np, s0, s, d.kind, t, f + l1, n, EAnd(a, b), code', f);
    OtherList(s, d.t, t, f, code');
    JoinedJumps(s, d, t, f, l1, s.(code := code'), d.(f := head), t, f + l1);
    RelinkExtends(s0, s, SetOf(l1) + Own(d.kind, t, f), code', f);
  }

  lemma OrCompiled(vm: Vm, np: nat, s0: State, s1: State, l1: seq<nat>, s: State, d: Desc, t: seq<nat>, f: seq<nat>,
      n: nat,
                   a: Expr, b: Expr, code': seq<Instr>, head: int)
    requires Wf(s0) && Wf(s) && Branches(vm, np, s0, s1, l1, [], false, n, a) && Extends(s0, s1, SetOf(l1))
    requires forall p :: p in l1 ==> 0 < p < |s1.code| && IsTest(s1.code[p - 1])
    requires Means(vm, np, s1, s, d.kind, t, f, n, b) && JumpsOk(s, d, t, f) && Extends(s1, s, Own(d.kind, t, f))
    requires |s1.code| <= |Body(s, d.kind).code| && LocalsBelow(b, n)
    requires Relinked(s.code, code', t) && IsList(code', head, t + l1)
    ensures var s', d' := s.(code := code'), d.(t := head);
      && Wf(s') && Means(vm, np, s0, s', d.kind, t + l1, f, n, EOr(a, b)) && JumpsOk(s', d', t + l1, f)
      && Extends(s0, s', Own(d.kind, t + l1, f)) && |s0.code| <= |Body(s', d.kind).code|
  {
    FirstJumps(s0, s1, l1, s, d, t, f);
    BodyWf(s, d, t, f);
    JumpsFacts(s, d, t, f);
    OrMeans(vm, np, s0, s1, l1, s, d.kind, t, f, n, a, b);
    RelinkMeans(vm, np, s0, s, d.kind, t + l1, f, n, EOr(a, b), code', t);
    OtherList(s, d.f, f, t, code');
    JoinedJumps(s, d, t, f, l1, s.(code := code'), d.(t := head), t + l1, f);
    RelinkExtends(s0, s, SetOf(l1) + Own(d.kind, t, f), code', t);
  }


  // ----- the simplest expressions -----

  lemma SimpleMeans(vm: Vm, np: nat, s0: State, k': seq<Value>, kind: Kind, n: nat, e: Expr)
    requires Wf(s0) && s0.k <= k' && !kind.VReloc? && !kind.VJmp?
    requires forall r :: Main(vm, s0.(k := k'), kind, r) == Eval(vm, e, r)
    ensures Wf(s0.(k := k')) && Means(vm, np, s0, s0.(k := k'), kind, [], [], n, e)
  {
    MoreConstants(vm, s0, k', map[]);
    forall r | Clean(r, np)
      ensures var o0, o := Reach(vm, s0, r), Reach(vm, s0.(k := k'), r);
        if o0.Fall? then Delivers(vm, s0.(k := k'), kind, [], [], n, Eval(vm, e, o0.r), o0.r, o) else o == o0
    {
      MoreConstants(vm, s0, k', r);
    }
  }

  lemma ParenMeans(vm: Vm, np: nat, s0: State, s: State, kind: Kind, t: seq<nat>, f: seq<nat>, n: nat, e: Expr)
    requires Means(vm, np, s0, s, kind, t, f, n, e)
    ensures Means(vm, np, s0, s, kind, t, f, n, EParen(e))
  {
    forall r | Clean(r, np)
      ensures var o0, o := Reach(vm, s0, r), Reach(vm, Body(s, kind), r);
        if o0.Fall? then Delivers(vm, s, kind, t, f, n, Eval(vm, EParen(e), o0.r), o0.r, o) else o == o0
    {
      MeansAt(vm, np, s0, s, kind, t, f, n, e, r);
    }
  }

  lemma {:induction false} BelowMore(e: Expr, n: nat, n': nat)
    requires LocalsBelow(e, n) && n <= n'
    ensures LocalsBelow(e, n')
  {
    match e
    case EParen(a) => BelowMore(a, n, n');
    case ENot(a) => BelowMore(a, n, n');
    case EAnd(a, b) => BelowMore(a, n, n'); BelowMore(b, n, n');
    case EOr(a, b) => BelowMore(a, n, n'); BelowMore(b, n, n');
    case ECompare(_, a, b) => BelowMore(a, n, n'); BelowMore(b, n, n');
    case _ =>
  }

  /** Patching a jump of a list leaves the rest of the list. */
  lemma RestOfList(code: seq<Instr>, head: int, l: seq<nat>, c: seq<Instr>, i: nat, reg: nat, v: int, d: int)
    requires IsList(code, head, l) && i < |l| && |c| == |code|
    requires forall j :: i <= j < |l| ==> SameJump(code, c, l[j])
    ensures l[i] < |c| && c[l[i]].Jmp?
    ensures forall j :: i < j < |l| ==> SameJump(code, PatchJump(c, l[i], reg, v, d), l[j])
  {
    assert SameJump(code, c, l[i]) && l[i] in l;
    PatchOthers(c, l[i], reg, v, d);
    forall j | i < j < |l|
      ensures SameJump(code, PatchJump(c, l[i], reg, v, d), l[j])
    {
      assert SameJump(code, c, l[j]) && l[j] in l && l[i] != l[j];
    }
  }

  predicate SameJump(code: seq<Instr>, c: seq<Instr>, p: nat) {
    p < |code| && p < |c| && c[p] == code[p] && (Patchable(c, p) <==> Patchable(code, p))
  }
}
