/** What an expression means, and what code that is still waiting for patches
    does for it: where a run of the code goes for each value. */
module CodeMeans {
  import opened Wrappers
  import opened CodeVm
  import opened CodeState

  datatype RelOp = Eq | Ne | Lt | Le | Gt | Ge

  datatype Expr =
    | ENil
    | ETrue
    | EFalse
    | ENumber(n: int)
    | EText(n: int)
    | ELocal(reg: nat)
    | EParen(e: Expr)
    | ENot(e: Expr)
    | EAnd(l: Expr, r: Expr)
    | EOr(l: Expr, r: Expr)
    | ECompare(op: RelOp, l: Expr, r: Expr)

  function Result(b: Option<bool>, whenTrue: bool): Option<Value> {
    if b.None? then None else Some(Bool(b.value == whenTrue))
  }

  function Related(vm: Vm, op: RelOp, x: Value, y: Value): Option<Value> {
    match op
    case Eq => Result(vm.rel(EQ, x, y), true)
    case Ne => Result(vm.rel(EQ, x, y), false)
    case Lt => Result(vm.rel(LT, x, y), true)
    case Le => Result(vm.rel(LE, x, y), true)
    case Gt => Result(vm.rel(LT, y, x), true)
    case Ge => Result(vm.rel(LE, y, x), true)
  }

  /** The value of an expression; None when a comparison raises an error. */
  function Eval(vm: Vm, e: Expr, r: Regs): Option<Value> {
    match e
    case ENil => Some(Nil)
    case ETrue => Some(Bool(true))
    case EFalse => Some(Bool(false))
    case ENumber(n) => Some(Number(n))
    case EText(n) => Some(Text(n))
    case ELocal(reg) => Some(Get(r, reg))
    case EParen(a) => Eval(vm, a, r)
    case ENot(a) => (
      match Eval(vm, a, r)
      case None => None
      case Some(v) => Some(Bool(IsFalse(v))))
    case EAnd(a, b) => (
      match Eval(vm, a, r)
      case None => None
      case Some(v) => if IsFalse(v) then Some(v) else Eval(vm, b, r))
    case EOr(a, b) => (
      match Eval(vm, a, r)
      case None => None
      case Some(v) => if IsFalse(v) then Eval(vm, b, r) else Some(v))
    case ECompare(op, a, b) => (
      match Eval(vm, a, r)
      case None => None
      case Some(x) => (
        match Eval(vm, b, r)
        case None => None
        case Some(y) => Related(vm, op, x, y)))
  }

  predicate LocalsBelow(e: Expr, n: nat) {
    match e
    case ELocal(reg) => reg < n
    case EParen(a) => LocalsBelow(a, n)
    case ENot(a) => LocalsBelow(a, n)
    case EAnd(a, b) => LocalsBelow(a, n) && LocalsBelow(b, n)
    case EOr(a, b) => LocalsBelow(a, n) && LocalsBelow(b, n)
    case ECompare(_, a, b) => LocalsBelow(a, n) && LocalsBelow(b, n)
    case _ => true
  }

  ghost predicate Keeps(r1: Regs, r2: Regs, n: nat) {
    forall i: nat :: i < n ==> Get(r2, i) == Get(r1, i)
  }

  lemma {:induction false} EvalKeeps(vm: Vm, e: Expr, r1: Regs, r2: Regs, n: nat)
    requires LocalsBelow(e, n) && Keeps(r1, r2, n)
    ensures Eval(vm, e, r2) == Eval(vm, e, r1)
  {
    match e
    case EParen(a) => EvalKeeps(vm, a, r1, r2, n);
    case ENot(a) => EvalKeeps(vm, a, r1, r2, n);
    case EAnd(a, b) => EvalKeeps(vm, a, r1, r2, n); EvalKeeps(vm, b, r1, r2, n);
    case EOr(a, b) => EvalKeeps(vm, a, r1, r2, n); EvalKeeps(vm, b, r1, r2, n);
    case ECompare(_, a, b) => EvalKeeps(vm, a, r1, r2, n); EvalKeeps(vm, b, r1, r2, n);
    case _ =>
  }

  // ----- expression descriptors -----

  /** Where the value of an expression is, when no jump is taken. */
  datatype Kind =
    | VNil
    | VTrue
    | VFalse
    | VK(info: nat)
    | VKNum(n: int)
    | VLocal(info: nat)
    | VReloc(info: nat)
    | VNonReloc(info: nat)
    | VJmp(info: nat)

  datatype Desc = Desc(kind: Kind, t: int, f: int)

  /** The state in which the value is about to be produced: a comparison and its
      jump, or an instruction whose register is open, come after it. */
  ghost function Body(s: State, kind: Kind): State {
    if kind.VReloc? then Before(s, |s.code| - 1)
    else if kind.VJmp? then Before(s, |s.code| - 2)
    else s
  }

  function Main(vm: Vm, s: State, kind: Kind, r: Regs): Option<Value> {
    match kind
    case VNil => Some(Nil)
    case VTrue => Some(Bool(true))
    case VFalse => Some(Bool(false))
    case VK(i) => Some(K(s.k, i))
    case VKNum(n) => Some(Number(n))
    case VLocal(i) => Some(Get(r, i))
    case VNonReloc(i) => Some(Get(r, i))
    case VReloc(i) => if i < |s.code| && s.code[i].Not? then Some(Bool(IsFalse(Get(r, s.code[i].b)))) else None
    case VJmp(i) =>
      if 0 < i <= |s.code| && s.code[i - 1].Compare? then
        var c := s.code[i - 1];
        Result(vm.rel(c.op, RK(s.k, r, c.b), RK(s.k, r, c.c)), c.cond)
      else None
  }

  /** A jump out of the expression comes with its value: in the register its
      test would copy, or else the value is a boolean. */
  predicate Exact(code: seq<Instr>, p: nat, r: Regs, v: Value) {
    0 < p < |code| && if code[p - 1].TestSet? then v == Get(r, code[p - 1].b) else v.Bool?
  }

  ghost predicate LeavesBy(code: seq<Instr>, t: seq<nat>, f: seq<nat>, v: Option<Value>, o: Outcome)
    requires o.Exit?
  {
    v.Some? && (if IsFalse(v.value) then o.p in f else o.p in t) && Exact(code, o.p, o.r, v.value)
  }

  /** From registers `r1`, the code delivers the value `v`: it falls through to
      where `kind` finds it, or leaves by one of the lists. */
  ghost predicate Delivers(vm: Vm, s: State, kind: Kind, t: seq<nat>, f: seq<nat>, n: nat, v: Option<Value>, r1: Regs,
      o: Outcome)
  {
    match o
    case Fall(r2) => Keeps(r1, r2, n) && Main(vm, s, kind, r2) == v
    case Exit(_, r2) => Keeps(r1, r2, n) && LeavesBy(s.code, t, f, v, o)
    case Raise => v == None
    case _ => false
  }

  /** It falls through exactly for values with this truth. */
  ghost predicate Decides(code: seq<Instr>, t: seq<nat>, f: seq<nat>, truth: bool, n: nat, v: Option<Value>, r1: Regs,
      o: Outcome)
  {
    match o
    case Fall(r2) => Keeps(r1, r2, n) && v.Some? && IsFalse(v.value) != truth
    case Exit(_, r2) => Keeps(r1, r2, n) && LeavesBy(code, t, f, v, o)
    case Raise => v == None
    case _ => false
  }

  ghost predicate Clean(r: Regs, np: nat) {
    forall i :: i >= np ==> Get(r, i) == Nil
  }

  /** Between the states `s0` and `s` the code for `e` was generated: whatever
      run arrived before it, now delivers the value of `e`. */
  ghost predicate Means(vm: Vm, np: nat, s0: State, s: State, kind: Kind, t: seq<nat>, f: seq<nat>, n: nat, e: Expr) {
    true <==> (forall r :: Clean(r, np) ==>
      var o0, o := Reach(vm, s0, r), Reach(vm, Body(s, kind), r);
      if o0.Fall? then Delivers(vm, s, kind, t, f, n, Eval(vm, e, o0.r), o0.r, o) else o == o0)
  }

  ghost predicate Branches(vm: Vm, np: nat, s0: State, s: State, t: seq<nat>, f: seq<nat>, truth: bool, n: nat,
      e: Expr)
  {
    true <==> (forall r :: Clean(r, np) ==>
      var o0, o := Reach(vm, s0, r), Reach(vm, s, r);
      if o0.Fall? then Decides(s.code, t, f, truth, n, Eval(vm, e, o0.r), o0.r, o) else o == o0)
  }

  lemma MeansAt(vm: Vm, np: nat, s0: State, s: State, kind: Kind, t: seq<nat>, f: seq<nat>, n: nat, e: Expr, r: Regs)
    requires Means(vm, np, s0, s, kind, t, f, n, e) && Clean(r, np)
    ensures var o0, o := Reach(vm, s0, r), Reach(vm, Body(s, kind), r);
      if o0.Fall? then Delivers(vm, s, kind, t, f, n, Eval(vm, e, o0.r), o0.r, o) else o == o0
  {
  }

  lemma BranchesAt(vm: Vm, np: nat, s0: State, s: State, t: seq<nat>, f: seq<nat>, truth: bool, n: nat, e: Expr,
      r: Regs)
    requires Branches(vm, np, s0, s, t, f, truth, n, e) && Clean(r, np)
    ensures var o0, o := Reach(vm, s0, r), Reach(vm, s, r);
      if o0.Fall? then Decides(s.code, t, f, truth, n, Eval(vm, e, o0.r), o0.r, o) else o == o0
  {
  }

  // ----- what the pieces of code generation do to meanings -----

  /** The tests that control the jumps of these lists are the same. */
  ghost predicate SameControls(code: seq<Instr>, code': seq<Instr>, list: seq<nat>) {
    forall p :: p in list ==> 0 < p < |code| && p < |code'| && code'[p - 1] == code[p - 1]
  }

  /** The register `reg` gets the value, and no other changes. */
  ghost predicate Sets(r: Regs, r': Regs, reg: nat, v: Value) {
    forall i :: Get(r', i) == if i == reg then v else Get(r, i)
  }

  /** A run that arrived in `s` has the value in `reg` in `s'`. */
  ghost predicate Loads(vm: Vm, np: nat, s: State, kind: Kind, s': State, reg: nat) {
    true <==> (forall r :: Clean(r, np) ==>
      var o, o' := Reach(vm, Body(s, kind), r), Reach(vm, s', r);
      if o.Fall? && Main(vm, s, kind, o.r).Some? then o'.Fall? && Sets(o.r, o'.r, reg, Main(vm, s, kind, o.r).value)
      else !o.Fall? && o' == o)
  }

  lemma LoadMeans(vm: Vm, np: nat, s0: State, s: State, kind: Kind, t: seq<nat>, f: seq<nat>, n: nat, e: Expr,
      s': State, reg: nat)
    requires Means(vm, np, s0, s, kind, t, f, n, e) && Loads(vm, np, s, kind, s', reg) && reg >= n
    requires SameControls(s.code, s'.code, t) && SameControls(s.code, s'.code, f)
    ensures Means(vm, np, s0, s', VNonReloc(reg), t, f, n, e)
  {
    forall r | Clean(r, np)
      ensures var o0, o := Reach(vm, s0, r), Reach(vm, s', r);
        if o0.Fall? then Delivers(vm, s', VNonReloc(reg), t, f, n, Eval(vm, e, o0.r), o0.r, o) else o == o0
    {
      MeansAt(vm, np, s0, s, kind, t, f, n, e, r);
    }
  }

  /** A jump on the truth of the value was added at `p`. */
  ghost predicate Jumps(vm: Vm, np: nat, s: State, kind: Kind, s': State, p: nat, cond: bool) {
    true <==> (forall r :: Clean(r, np) ==>
      var o, o' := Reach(vm, Body(s, kind), r), Reach(vm, s', r);
      if !o.Fall? then o' == o
      else if Main(vm, s, kind, o.r).None? then o' == Raise
      else
        var v := Main(vm, s, kind, o.r).value;
        if IsFalse(v) != cond then o' == Exit(p, o.r) && Exact(s'.code, p, o.r, v) else o' == Fall(o.r))
  }

  lemma JumpBranches(vm: Vm, np: nat, s0: State, s: State, kind: Kind, t: seq<nat>, f: seq<nat>, n: nat, e: Expr,
      s': State, p: nat, cond: bool)
    requires Means(vm, np, s0, s, kind, t, f, n, e) && Jumps(vm, np, s, kind, s', p, cond)
    requires SameControls(s.code, s'.code, t) && SameControls(s.code, s'.code, f)
    ensures Branches(vm, np, s0, s', if cond then t + [p] else t, if cond then f else f + [p], !cond, n, e)
  {
    var t', f' := if cond then t + [p] else t, if cond then f else f + [p];
    forall r | Clean(r, np)
      ensures var o0, o := Reach(vm, s0, r), Reach(vm, s', r);
        if o0.Fall? then Decides(s'.code, t', f', !cond, n, Eval(vm, e, o0.r), o0.r, o) else o == o0
    {
      MeansAt(vm, np, s0, s, kind, t, f, n, e, r);
    }
  }

  /** A constant needs no jump. */
  lemma ConstantBranches(vm: Vm, np: nat, s0: State, s: State, kind: Kind, t: seq<nat>, f: seq<nat>, n: nat, e: Expr,
      truth: bool)
    requires Means(vm, np, s0, s, kind, t, f, n, e) && Body(s, kind) == s
    requires forall r :: Main(vm, s, kind, r).Some? && IsFalse(Main(vm, s, kind, r).value) != truth
    ensures Branches(vm, np, s0, s, t, f, truth, n, e)
  {
    forall r | Clean(r, np)
      ensures var o0, o := Reach(vm, s0, r), Reach(vm, s, r);
        if o0.Fall? then Decides(s.code, t, f, truth, n, Eval(vm, e, o0.r), o0.r, o) else o == o0
    {
      MeansAt(vm, np, s0, s, kind, t, f, n, e, r);
    }
  }

  /** The jumps taken when the value has the other truth lead on. */
  lemma HereBranches(vm: Vm, np: nat, s0: State, s: State, t: seq<nat>, f: seq<nat>, truth: bool, n: nat, e: Expr)
    requires Branches(vm, np, s0, s, t, f, truth, n, e) && Wf(s)
    requires Distinct(s.jpc + if truth then t else f) && forall p :: p in (if truth then t else f) ==> p in s.pend
    requires forall p :: p in t ==> p !in f
    requires forall r :: Clean(r, np) && Reach(vm, s0, r).Exit? ==> Reach(vm, s0, r).p !in t + f
    ensures Branches(vm, np, s0, ToHere(s, if truth then t else f), if truth then [] else t, if truth then f else [], truth, n, e)
  {
    var here := if truth then t else f;
    var s' := ToHere(s, here);
    forall r | Clean(r, np)
      ensures var o0, o := Reach(vm, s0, r), Reach(vm, s', r);
        if o0.Fall? then Decides(s'.code, if truth then [] else t, if truth then f else [], truth, n, Eval(vm, e, o0.r), o0.r, o) else o == o0
    {
      BranchesAt(vm, np, s0, s, t, f, truth, n, e, r);
      Arrived(vm, s, here, r);
    }
  }

  /** Code for the second operand of `and` and `or` follows. */
  lemma AndMeans(vm: Vm, np: nat, s0: State, s1: State, f1: seq<nat>, s: State, kind: Kind, t: seq<nat>, f: seq<nat>,
      n: nat, a: Expr, b: Expr)
    requires Branches(vm, np, s0, s1, [], f1, true, n, a)
    requires Means(vm, np, s1, s, kind, t, f, n, b) && LocalsBelow(b, n)
    requires SameControls(s1.code, s.code, f1)
    ensures Means(vm, np, s0, s, kind, t, f + f1, n, EAnd(a, b))
  {
    forall r | Clean(r, np)
      ensures var o0, o := Reach(vm, s0, r), Reach(vm, Body(s, kind), r);
        if o0.Fall? then Delivers(vm, s, kind, t, f + f1, n, Eval(vm, EAnd(a, b), o0.r), o0.r, o) else o == o0
    {
      BranchesAt(vm, np, s0, s1, [], f1, true, n, a, r);
      MeansAt(vm, np, s1, s, kind, t, f, n, b, r);
      var o0, o1 := Reach(vm, s0, r), Reach(vm, s1, r);
      if o0.Fall? && o1.Fall? {
        EvalKeeps(vm, b, o0.r, o1.r, n);
      }
    }
  }

  lemma OrMeans(vm: Vm, np: nat, s0: State, s1: State, t1: seq<nat>, s: State, kind: Kind, t: seq<nat>, f: seq<nat>,
      n: nat, a: Expr, b: Expr)
    requires Branches(vm, np, s0, s1, t1, [], false, n, a)
    requires Means(vm, np, s1, s, kind, t, f, n, b) && LocalsBelow(b, n)
    requires SameControls(s1.code, s.code, t1)
    ensures Means(vm, np, s0, s, kind, t + t1, f, n, EOr(a, b))
  {
    forall r | Clean(r, np)
      ensures var o0, o := Reach(vm, s0, r), Reach(vm, Body(s, kind), r);
        if o0.Fall? then Delivers(vm, s, kind, t + t1, f, n, Eval(vm, EOr(a, b), o0.r), o0.r, o) else o == o0
    {
      BranchesAt(vm, np, s0, s1, t1, [], false, n, a, r);
      MeansAt(vm, np, s1, s, kind, t, f, n, b, r);
      var o0, o1 := Reach(vm, s0, r), Reach(vm, s1, r);
      if o0.Fall? && o1.Fall? {
        EvalKeeps(vm, b, o0.r, o1.r, n);
      }
    }
  }

  function Negated(v: Option<Value>): Option<Value> {
    if v.None? then None else Some(Bool(IsFalse(v.value)))
  }

  ghost predicate NoValues(code: seq<Instr>, list: seq<nat>) {
    forall p :: p in list ==> 0 < p < |code| && !code[p - 1].TestSet?
  }

  /** `not`: the value found is negated, and no jump carries a value any more. */
  lemma NotMeans(vm: Vm, np: nat, s0: State, s: State, kind: Kind, t: seq<nat>, f: seq<nat>, n: nat, e: Expr, s': State,
      kind': Kind)
    requires Means(vm, np, s0, s, kind, t, f, n, e)
    requires forall r :: Clean(r, np) ==> Reach(vm, Body(s', kind'), r) == Reach(vm, Body(s, kind), r)
    requires forall r :: Main(vm, s', kind', r) == Negated(Main(vm, s, kind, r))
    requires NoValues(s'.code, t) && NoValues(s'.code, f)
    ensures Means(vm, np, s0, s', kind', f, t, n, ENot(e))
  {
    forall r | Clean(r, np)
      ensures var o0, o := Reach(vm, s0, r), Reach(vm, Body(s', kind'), r);
        if o0.Fall? then Delivers(vm, s', kind', f, t, n, Eval(vm, ENot(e), o0.r), o0.r, o) else o == o0
    {
      MeansAt(vm, np, s0, s, kind, t, f, n, e, r);
    }
  }

  // ----- the value in a register -----

  /** Whatever run arrived before the code of `e` now has its value in `reg`,
      and no register below `n` changed but that one. */
  ghost predicate Computes(vm: Vm, np: nat, s0: State, s: State, reg: nat, n: nat, e: Expr) {
    true <==> (forall r :: Clean(r, np) ==>
      var o0, o := Reach(vm, s0, r), Reach(vm, s, r);
      if o0.Fall? then ComputesAt(reg, n, Eval(vm, e, o0.r), o0.r, o) else o == o0)
  }

  ghost predicate ComputesAt(reg: nat, n: nat, v: Option<Value>, r1: Regs, o: Outcome) {
    match o
    case Fall(r2) => v == Some(Get(r2, reg)) && forall i: nat :: i < n && i != reg ==> Get(r2, i) == Get(r1, i)
    case Exit(_, _) => false
    case Raise => v == None
    case _ => false
  }

  lemma ComputesFor(vm: Vm, np: nat, s0: State, s: State, reg: nat, n: nat, e: Expr, r: Regs)
    requires Computes(vm, np, s0, s, reg, n, e) && Clean(r, np)
    ensures var o0, o := Reach(vm, s0, r), Reach(vm, s, r);
      if o0.Fall? then ComputesAt(reg, n, Eval(vm, e, o0.r), o0.r, o) else o == o0
  {
  }

  /** Both lists of an expression are patched at its end. */
  ghost function Final(s: State, t: seq<nat>, f: seq<nat>, reg: nat, pf: int, pt: int): State {
    Patch(Patch(s, f, reg, pf), t, reg, pt)
  }

  predicate LoadsBool(code: seq<Instr>, d: nat, reg: nat, v: bool) {
    d < |code| && code[d] == LoadBool(reg, v, !v) && Landing(code, d)
  }

  /** `pf` and `pt` are the loads of false and of true at the end of the code,
      which all jumps without a value can use. */
  ghost predicate Loaders(code: seq<Instr>, t: seq<nat>, f: seq<nat>, reg: nat, pf: int, pt: int) {
    && (forall p :: p in f ==> p < |code| && code[p].Jmp? && (Patchable(code, p) || (p < pf == |code| - 2 && LoadsBool(code, pf, reg, false))))
    && (forall p :: p in t ==> p < |code| && code[p].Jmp? && (Patchable(code, p) || (p < pt == |code| - 1 && LoadsBool(code, pt, reg, true))))
  }

  lemma FinalReach(vm: Vm, s: State, t: seq<nat>, f: seq<nat>, reg: nat, pf: int, pt: int, r: Regs)
    requires Wf(s) && Distinct(t) && Distinct(f)
    requires forall p :: p in t || p in f ==> p in s.pend && p !in s.jpc
    requires forall p :: p in t ==> p !in f
    requires Loaders(s.code, t, f, reg, pf, pt)
    ensures Wf(Final(s, t, f, reg, pf, pt))
    ensures Reach(vm, Final(s, t, f, reg, pf, pt), r) ==
      Landed(Landed(Reach(vm, s, r), s.code, f, reg, pf), s.code, t, reg, pt)
  {
    var s1 := Patch(s, f, reg, pf);
    Patching(vm, s, f, reg, pf, r);
    PatchAllOthers(s.code, f, reg, |s.code|, pf);
    Patching(vm, s1, t, reg, pt, r);
    var o := Reach(vm, s1, r);
    if o.Exit? && o.p in t {
      assert Land(s1.code, o.p, reg, pt, o.r) == Land(s.code, o.p, reg, pt, o.r);
    }
  }

  /** A jump with an exact value lands with that value in the register. */
  lemma LandsExactly(code: seq<Instr>, list: seq<nat>, reg: nat, d: int, p: nat, r: Regs, v: Value)
    requires 0 < p < |code| && Exact(code, p, r, v) && reg != NO_REG
    requires Patchable(code, p) || (0 <= d < |code| && code[d].LoadBool? && code[d].a == reg && v == Bool(code[d].v))
    ensures Land(code, p, reg, d, r).Fall? && Sets(r, Land(code, p, reg, d, r).r, reg, v)
  {
  }

  /** exp2reg after the value was loaded; around it, the loads of the booleans
      when some jump needs them. */
  lemma FinalComputes(vm: Vm, np: nat, s0: State, s: State, kind: Kind, t: seq<nat>, f: seq<nat>, n: nat, e: Expr,
                      s1: State, s2: State, reg: nat, pf: int, pt: int)
    requires Means(vm, np, s0, s, kind, t, f, n, e) && Loads(vm, np, s, kind, s1, reg)
    requires SameControls(s.code, s2.code, t) && SameControls(s.code, s2.code, f)
    requires forall r :: Clean(r, np) ==> Reach(vm, s2, r) == Reach(vm, s1, r)
    requires Wf(s2) && Distinct(t) && Distinct(f) && (forall p :: p in t ==> p !in f)
    requires forall p :: p in t || p in f ==> p in s2.pend && p !in s2.jpc
    requires Loaders(s2.code, t, f, reg, pf, pt) && reg != NO_REG
    requires forall r :: Clean(r, np) && Reach(vm, s0, r).Exit? ==> Reach(vm, s0, r).p !in t && Reach(vm, s0, r).p !in f
    ensures Wf(Final(s2, t, f, reg, pf, pt))
    ensures Computes(vm, np, s0, Final(s2, t, f, reg, pf, pt), reg, n, e)
  {
    var s3 := Final(s2, t, f, reg, pf, pt);
    FinalReach(vm, s2, t, f, reg, pf, pt, map[]);
    forall r | Clean(r, np)
      ensures var o0, o := Reach(vm, s0, r), Reach(vm, s3, r);
        if o0.Fall? then ComputesAt(reg, n, Eval(vm, e, o0.r), o0.r, o) else o == o0
    {
      MeansAt(vm, np, s0, s, kind, t, f, n, e, r);
      FinalReach(vm, s2, t, f, reg, pf, pt, r);
      var o0, o2 := Reach(vm, s0, r), Reach(vm, s2, r);
      if o0.Fall? && o2.Exit? {
        var v := Eval(vm, e, o0.r).value;
        LandsExactly(s2.code, if IsFalse(v) then f else t, reg, if IsFalse(v) then pf else pt, o2.p, o2.r, v);
      }
    }
  }

  /** The same for a comparison, whose own jump joins the true list. */
  lemma FinalCompare(vm: Vm, np: nat, s0: State, s: State, p: nat, t: seq<nat>, f: seq<nat>, n: nat, e: Expr, reg: nat)
    requires Means(vm, np, s0, s, VJmp(p), t, f, n, e) && Jumps(vm, np, s, VJmp(p), s, p, true)
    requires Wf(s) && s.jpc == [] && 0 < p < |s.code| && s.code[p - 1].Compare?
    requires Distinct(t + [p]) && Distinct(f) && (forall q :: q in t + [p] ==> q !in f)
    requires forall q :: q in t + [p] || q in f ==> q in s.pend
    requires reg != NO_REG
    requires forall r :: Clean(r, np) && Reach(vm, s0, r).Exit? ==>
      Reach(vm, s0, r).p !in t + [p] && Reach(vm, s0, r).p !in f
    ensures var s2 := BoolsAfter(s, reg);
      && Wf(Final(s2, t + [p], f, reg, |s.code|, |s.code| + 1))
      && Computes(vm, np, s0, Final(s2, t + [p], f, reg, |s.code|, |s.code| + 1), reg, n, e)
  {
    var s2 := BoolsAfter(s, reg);
    var pf, pt := |s.code|, |s.code| + 1;
    After(vm, s, reg, map[]);
    CompareLoaders(s, s2, t + [p], f, reg);
    FinalReach(vm, s2, t + [p], f, reg, pf, pt, map[]);
    var s3 := Final(s2, t + [p], f, reg, pf, pt);
    forall r | Clean(r, np)
      ensures var o0, o := Reach(vm, s0, r), Reach(vm, s3, r);
        if o0.Fall? then ComputesAt(reg, n, Eval(vm, e, o0.r), o0.r, o) else o == o0
    {
      MeansAt(vm, np, s0, s, VJmp(p), t, f, n, e, r);
      After(vm, s, reg, r);
      FinalReach(vm, s2, t + [p], f, reg, pf, pt, r);
      var o0, o, o2 := Reach(vm, s0, r), Reach(vm, Body(s, VJmp(p)), r), Reach(vm, s2, r);
      if o0.Fall? {
        CompareLands(vm, s, s2, p, t, f, n, reg, Eval(vm, e, o0.r), o0.r, o, o2);
      }
    }
  }

  function CompareEnds(v: Option<Value>, p: nat, reg: nat, r: Regs): Outcome {
    if v.None? then Raise else if IsFalse(v.value) then Fall(r[reg := Bool(false)]) else Exit(p, r)
  }

  /** One run: its value lands in the register. */
  lemma CompareLands(vm: Vm, s: State, s2: State, p: nat, t: seq<nat>, f: seq<nat>, n: nat, reg: nat, v: Option<Value>,
      r1: Regs, o: Outcome, o2: Outcome)
    requires Delivers(vm, s, VJmp(p), t, f, n, v, r1, o) && reg != NO_REG
    requires o2 == if o.Fall? then CompareEnds(Main(vm, s, VJmp(p), o.r), p, reg, o.r) else o
    requires 0 < p < |s.code| && s.code[p - 1].Compare? && p !in f && s2 == BoolsAfter(s, reg)
    requires Loaders(s2.code, t + [p], f, reg, |s.code|, |s.code| + 1)
    requires forall q :: q in t ==> q !in f
    ensures ComputesAt(reg, n, v, r1, Landed(Landed(o2, s2.code, f, reg, |s.code|), s2.code, t + [p], reg, |s.code| + 1))
  {
    if o2.Exit? {
      var x := v.value;
      assert Exact(s2.code, o2.p, o2.r, x);
      LandsExactly(s2.code, if IsFalse(x) then f else t + [p], reg, if IsFalse(x) then |s.code| else |s.code| + 1,
        o2.p, o2.r, x);
    }
  }

  lemma CompareLoaders(s1: State, s2: State, t: seq<nat>, f: seq<nat>, reg: nat)
    requires Wf(s1) && s2 == BoolsAfter(s1, reg)
    requires forall q :: q in t || q in f ==> q in s1.pend
    ensures Loaders(s2.code, t, f, reg, |s1.code|, |s1.code| + 1)
  {
    ShapeLater(s1.code, s1.pend, |s1.k|, s1.last, |s1.code|);
    EndLands(s1.code, s1.pend, |s1.k|);
    forall q | q in t || q in f
      ensures 0 <= q < |s1.code| && s2.code[q].Jmp? && (Patchable(s2.code, q) <==> Patchable(s1.code, q))
    {
      assert q in s1.pend;
    }
  }

  // ----- operands -----

  /** The value of `e` is the operand `x`, a register or a constant. */
  ghost predicate Provides(vm: Vm, np: nat, s0: State, s: State, x: nat, n: nat, e: Expr) {
    true <==> (forall r :: Clean(r, np) ==>
      var o0, o := Reach(vm, s0, r), Reach(vm, s, r);
      if o0.Fall? then ProvidesAt(s.k, x, n, Eval(vm, e, o0.r), o0.r, o) else o == o0)
  }

  ghost predicate ProvidesAt(k: seq<Value>, x: nat, n: nat, v: Option<Value>, r1: Regs, o: Outcome) {
    match o
    case Fall(r2) => Keeps(r1, r2, n) && v == Some(RK(k, r2, x))
    case Exit(_, _) => false
    case Raise => v == None
    case _ => false
  }

  lemma ProvidesFor(vm: Vm, np: nat, s0: State, s: State, x: nat, n: nat, e: Expr, r: Regs)
    requires Provides(vm, np, s0, s, x, n, e) && Clean(r, np)
    ensures var o0, o := Reach(vm, s0, r), Reach(vm, s, r);
      if o0.Fall? then ProvidesAt(s.k, x, n, Eval(vm, e, o0.r), o0.r, o) else o == o0
  {
  }

  lemma MeansProvides(vm: Vm, np: nat, s0: State, s: State, kind: Kind, n: nat, e: Expr, x: nat)
    requires Means(vm, np, s0, s, kind, [], [], n, e) && Body(s, kind) == s
    requires forall r :: Main(vm, s, kind, r) == Some(RK(s.k, r, x))
    ensures Provides(vm, np, s0, s, x, n, e)
  {
    forall r | Clean(r, np)
      ensures var o0, o := Reach(vm, s0, r), Reach(vm, s, r);
        if o0.Fall? then ProvidesAt(s.k, x, n, Eval(vm, e, o0.r), o0.r, o) else o == o0
    {
      MeansAt(vm, np, s0, s, kind, [], [], n, e, r);
    }
  }

  lemma ComputesProvides(vm: Vm, np: nat, s0: State, s: State, reg: nat, n: nat, e: Expr)
    requires Computes(vm, np, s0, s, reg, n, e) && n <= reg < BITRK
    ensures Provides(vm, np, s0, s, reg, n, e)
  {
    forall r | Clean(r, np)
      ensures var o0, o := Reach(vm, s0, r), Reach(vm, s, r);
        if o0.Fall? then ProvidesAt(s.k, reg, n, Eval(vm, e, o0.r), o0.r, o) else o == o0
    {
      ComputesFor(vm, np, s0, s, reg, n, e, r);
    }
  }

  predicate ComparesAs(op: RelOp, c: CompOp, cond: bool, swap: bool) {
    match op
    case Eq => c == EQ && cond && !swap
    case Ne => c == EQ && !cond && !swap
    case Lt => c == LT && cond && !swap
    case Le => c == LE && cond && !swap
    case Gt => c == LT && cond && swap
    case Ge => c == LE && cond && swap
  }

  /** codecomp: the comparison of two operands, the first computed before the
      second. */
  lemma CompareMeans(vm: Vm, np: nat, s0: State, s1: State, x: nat, n0: nat, a: Expr, s2: State, y: nat, n1: nat,
      b: Expr,
                     op: RelOp, c: CompOp, cond: bool, swap: bool, s: State)
    requires Provides(vm, np, s0, s1, x, n0, a) && Provides(vm, np, s1, s2, y, n1, b)
    requires n0 <= n1 && LocalsBelow(b, n0) && s1.k <= s2.k
    requires if IsK(x) then x - BITRK < |s1.k| else x < n1
    requires ComparesAs(op, c, cond, swap)
    requires Wf(s2) && OperandOk(|s2.k|, x) && OperandOk(|s2.k|, y)
    requires s == EmitTest(s2, if swap then Compare(c, cond, y, x) else Compare(c, cond, x, y))
    ensures Wf(s) && Means(vm, np, s0, s, VJmp(|s.code| - 1), [], [], n0, ECompare(op, a, b))
  {
    var i := if swap then Compare(c, cond, y, x) else Compare(c, cond, x, y);
    var p := |s.code| - 1;
    Tested(vm, s2, i, map[]);
    BodyOfTest(s2, i);
    assert s.code[p - 1] == i && s.k == s2.k && Body(s, VJmp(p)) == Discharge(s2);
    forall r | Clean(r, np)
      ensures var o0, o := Reach(vm, s0, r), Reach(vm, Body(s, VJmp(p)), r);
        if o0.Fall? then Delivers(vm, s, VJmp(p), [], [], n0, Eval(vm, ECompare(op, a, b), o0.r), o0.r, o) else o == o0
    {
      ProvidesFor(vm, np, s0, s1, x, n0, a, r);
      ProvidesFor(vm, np, s1, s2, y, n1, b, r);
      Discharged(vm, s2, r);
      var o0, o1, o2 := Reach(vm, s0, r), Reach(vm, s1, r), Reach(vm, s2, r);
      if o0.Fall? {
        CompareDelivers(vm, s1.k, s2.k, x, n0, a, y, n1, b, op, c, cond, swap, s, p, o0.r, o1, o2);
      }
    }
  }

  /** One run of both operands and the comparison. */
  lemma CompareDelivers(vm: Vm, k1: seq<Value>, k2: seq<Value>, x: nat, n0: nat, a: Expr, y: nat, n1: nat, b: Expr,
                        op: RelOp, c: CompOp, cond: bool, swap: bool, s: State, p: nat, r0: Regs, o1: Outcome, o2: Outcome)
    requires ProvidesAt(k1, x, n0, Eval(vm, a, r0), r0, o1)
    requires if o1.Fall? then ProvidesAt(k2, y, n1, Eval(vm, b, o1.r), o1.r, o2) else o2 == o1
    requires n0 <= n1 && LocalsBelow(b, n0) && k1 <= k2 && s.k == k2
    requires if IsK(x) then x - BITRK < |k1| else x < n1
    requires ComparesAs(op, c, cond, swap)
    requires 0 < p <= |s.code| && s.code[p - 1] == if swap then Compare(c, cond, y, x) else Compare(c, cond, x, y)
    ensures Delivers(vm, s, VJmp(p), [], [], n0, Eval(vm, ECompare(op, a, b), r0), r0, o2)
  {
    if o1.Fall? {
      EvalKeeps(vm, b, r0, o1.r, n0);
      if o2.Fall? {
        assert RK(k2, o2.r, x) == RK(k1, o1.r, x);
        assert Main(vm, s, VJmp(p), o2.r) == Related(vm, op, RK(k2, o2.r, x), RK(k2, o2.r, y));
      }
    }
  }

  /** Taking the test away again gives the state with its jumps discharged. */
  lemma BodyOfTest(s: State, i: Instr)
    requires Wf(s)
    ensures var s' := EmitTest(s, i); Before(s', |s'.code| - 2) == Discharge(s)
  {
    var d, s' := Discharge(s), EmitTest(s, i);
    Discharged(Vm((op, x, y) => None), s, map[]);
    assert s'.code[..|d.code|] == d.code;
    assert forall p :: p in d.pend ==> p < |d.code|;
    assert (set p | p in s'.pend && p < |d.code|) == d.pend;
  }

  /** Before its jump is patched, a comparison jumps when it holds. */
  lemma CompareJumps(vm: Vm, np: nat, s: State, p: nat)
    requires Wf(s) && s.jpc == [] && |s.code| >= 2 && p == |s.code| - 1 && s.last <= p - 1
    requires s.code[p - 1].Compare? && s.code[p].Jmp? && p in s.pend
    ensures Wf(Body(s, VJmp(p))) && Jumps(vm, np, s, VJmp(p), s, p, true)
  {
    if p >= 2 {
      assert InstrOk(s.code, s.pend, |s.k|, s.last, p - 2);
    }
    CompareReach(vm, s, p, map[]);
    forall r | Clean(r, np)
      ensures Reach(vm, s, r) == Branched(vm, Reach(vm, Body(s, VJmp(p)), r), s.k, s.code[p - 1], p)
    {
      CompareReach(vm, s, p, r);
    }
  }

  lemma CompareReach(vm: Vm, s: State, p: nat, r: Regs)
    requires Wf(s) && s.jpc == [] && |s.code| >= 2 && p == |s.code| - 1 && s.last <= p - 1
    requires IsTest(s.code[p - 1]) && s.code[p].Jmp? && p in s.pend
    requires p >= 2 ==> !IsTest(s.code[p - 2])
    ensures Wf(Before(s, p - 1))
    ensures Reach(vm, s, r) == Branched(vm, Reach(vm, Before(s, p - 1), r), s.k, s.code[p - 1], p)
  {
    BeforeReach(vm, s, p - 1, r);
    TestRuns(vm, s, p, Reach(vm, Before(s, p - 1), r));
  }

  lemma TestRuns(vm: Vm, s: State, p: nat, o: Outcome)
    requires p >= 1 && p + 1 == |s.code| && IsTest(s.code[p - 1]) && s.code[p].Jmp? && p in s.pend
    ensures Onwards(vm, s, p - 1, o) == Branched(vm, o, s.k, s.code[p - 1], p)
  {
    if o.Fall? {
      var e := Step(vm, s.k, s.code[p - 1], o.r);
      if e.Skip? {
        assert Run(vm, s.k, s.code, s.pend, p + 1, e.r) == Fall(e.r);
      } else if e.TakeJump? {
        assert Take(vm, s.k, s.code, s.pend, p, e.r) == Exit(p, e.r);
      }
    }
  }
}
