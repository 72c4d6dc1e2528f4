/** What compiled statements do, said of the values in the registers. */
module CodeLaws {
  import opened Wrappers
  import opened CodeVm
  import opened CodeState
  import opened CodeMeans
  import opened CodeLists
  import opened CodeStmts

  /** Comparisons of numbers are those of integers; other comparisons are not
      restricted. */
  ghost predicate UsualOrder(vm: Vm) {
    forall x, y :: OrderAt(vm, x, y)
  }

  predicate OrderAt(vm: Vm, x: int, y: int) {
    && vm.rel(EQ, Number(x), Number(y)) == Some(x == y)
    && vm.rel(LT, Number(x), Number(y)) == Some(x < y)
    && vm.rel(LE, Number(x), Number(y)) == Some(x <= y)
  }

  predicate Compares(op: RelOp, x: int, y: int) {
    match op
    case Eq => x == y
    case Ne => x != y
    case Lt => x < y
    case Le => x <= y
    case Gt => x > y
    case Ge => x >= y
  }

  /** How a run of the compiled body ends. */
  ghost predicate Ran(vm: Vm, np: nat, stmts: seq<Stmt>, r: Regs, o: Outcome) {
    RunsTo(ExecAll(vm, stmts, np, r), ActiveAll(stmts, np), o)
  }

  /** The same for local x = e. */
  ghost predicate Declared(vm: Vm, np: nat, e: Expr, r: Regs, o: Outcome) {
    Ran(vm, np, [SLocal(e)], r, o)
  }

  /** The value is in the register of the new local, and the parameters keep
      theirs. */
  ghost predicate Leaves(np: nat, r: Regs, o: Outcome, v: Value) {
    && o.Returned? && Get(o.r, np) == v
    && forall i: nat :: i < np ==> Get(o.r, i) == Get(r, i)
  }

  lemma OneStatement(vm: Vm, np: nat, s: Stmt, r: Regs)
    ensures ExecAll(vm, [s], np, r) == Exec(vm, s, np, r) && ActiveAll([s], np) == Active(s, np)
  {
    var stmts := [s];
    assert stmts[..|stmts| - 1] == [];
    assert ExecAll(vm, [], np, r) == Some(r) && ActiveAll([], np) == np;
  }

  lemma DeclaredIs(vm: Vm, np: nat, e: Expr, r: Regs, o: Outcome)
    ensures Eval(vm, e, r) == None ==> (Declared(vm, np, e, r, o) <==> o == Raise)
    ensures Eval(vm, e, r).Some? ==> (Declared(vm, np, e, r, o) <==> Leaves(np, r, o, Eval(vm, e, r).value))
  {
    OneStatement(vm, np, SLocal(e), r);
    hide Eval;
    var v := Eval(vm, e, r);
    if v.Some? {
      var r1 := r[np := v.value];
      assert forall i: nat :: i < np ==> Get(r1, i) == Get(r, i);
      if Leaves(np, r, o, v.value) {
        assert Keeps(r1, o.r, np + 1);
      }
      if o.Returned? && Keeps(r1, o.r, np + 1) {
        assert Get(o.r, np) == Get(r1, np);
      }
    }
  }

  lemma Constants(vm: Vm, np: nat, n: int, a: nat, e: Expr, r: Regs, o: Outcome)
    ensures Declared(vm, np, ENil, r, o) ==> Leaves(np, r, o, Nil)
    ensures Declared(vm, np, ETrue, r, o) ==> Leaves(np, r, o, Bool(true))
    ensures Declared(vm, np, EFalse, r, o) ==> Leaves(np, r, o, Bool(false))
    ensures Declared(vm, np, ENumber(n), r, o) ==> Leaves(np, r, o, Number(n))
    ensures Declared(vm, np, EText(n), r, o) ==> Leaves(np, r, o, Text(n))
    ensures Declared(vm, np, ELocal(a), r, o) ==> Leaves(np, r, o, Get(r, a))
    ensures Declared(vm, np, EParen(e), r, o) <==> Declared(vm, np, e, r, o)
  {
    DeclaredIs(vm, np, ENil, r, o);
    DeclaredIs(vm, np, ETrue, r, o);
    DeclaredIs(vm, np, EFalse, r, o);
    DeclaredIs(vm, np, ENumber(n), r, o);
    DeclaredIs(vm, np, EText(n), r, o);
    DeclaredIs(vm, np, ELocal(a), r, o);
    DeclaredIs(vm, np, e, r, o);
    DeclaredIs(vm, np, EParen(e), r, o);
  }

  /** Only nil and false are false; `and` and `or` give one of their operands, and
      the second is evaluated only when the first does not decide. `oa` is how the
      first operand ends, alone. */
  lemma ShortCircuit(vm: Vm, np: nat, a: Expr, b: Expr, r: Regs, oa: Outcome, o: Outcome)
    requires Declared(vm, np, a, r, oa)
    ensures oa == Raise || oa.Returned?
    ensures oa == Raise && Declared(vm, np, EAnd(a, b), r, o) ==> o == Raise
    ensures oa == Raise && Declared(vm, np, EOr(a, b), r, o) ==> o == Raise
    ensures oa == Raise && Declared(vm, np, ENot(a), r, o) ==> o == Raise
    ensures oa.Returned? && Get(oa.r, np) in {Nil, Bool(false)} ==>
      && (Declared(vm, np, EAnd(a, b), r, o) ==> Leaves(np, r, o, Get(oa.r, np)))
      && (Declared(vm, np, EOr(a, b), r, o) ==> Declared(vm, np, b, r, o))
      && (Declared(vm, np, ENot(a), r, o) ==> Leaves(np, r, o, Bool(true)))
    ensures oa.Returned? && Get(oa.r, np) !in {Nil, Bool(false)} ==>
      && (Declared(vm, np, EAnd(a, b), r, o) ==> Declared(vm, np, b, r, o))
      && (Declared(vm, np, EOr(a, b), r, o) ==> Leaves(np, r, o, Get(oa.r, np)))
      && (Declared(vm, np, ENot(a), r, o) ==> Leaves(np, r, o, Bool(false)))
  {
    DeclaredIs(vm, np, a, r, oa);
    DeclaredIs(vm, np, b, r, o);
    DeclaredIs(vm, np, EAnd(a, b), r, o);
    DeclaredIs(vm, np, EOr(a, b), r, o);
    DeclaredIs(vm, np, ENot(a), r, o);
    hide Declared;
  }

  /** local c = a OP b, for numbers in locals. */
  lemma ComparesNumbers(vm: Vm, np: nat, op: RelOp, a: nat, b: nat, x: int, y: int, r: Regs, o: Outcome)
    requires UsualOrder(vm) && Get(r, a) == Number(x) && Get(r, b) == Number(y)
    requires Declared(vm, np, ECompare(op, ELocal(a), ELocal(b)), r, o)
    ensures Leaves(np, r, o, Bool(Compares(op, x, y)))
  {
    DeclaredIs(vm, np, ECompare(op, ELocal(a), ELocal(b)), r, o);
    assert OrderAt(vm, x, y) && OrderAt(vm, y, x);
    assert Eval(vm, ELocal(a), r) == Some(Number(x)) && Eval(vm, ELocal(b), r) == Some(Number(y));
    assert Eval(vm, ECompare(op, ELocal(a), ELocal(b)), r) == Related(vm, op, Number(x), Number(y));
    assert Related(vm, op, Number(x), Number(y)) == Some(Bool(Compares(op, x, y)));
  }

  /** What a comparison of any two values asks the machine for. */
  function Asks(vm: Vm, op: RelOp, u: Value, v: Value): Option<bool> {
    match op
    case Eq | Ne => vm.rel(EQ, u, v)
    case Lt => vm.rel(LT, u, v)
    case Le => vm.rel(LE, u, v)
    case Gt => vm.rel(LT, v, u)
    case Ge => vm.rel(LE, v, u)
  }

  /** Comparisons of any expressions: the first operand is evaluated before the
      second, and an error of either, or of the comparison, is raised. */
  lemma ComparesValues(vm: Vm, np: nat, op: RelOp, a: Expr, b: Expr, r: Regs, oa: Outcome, ob: Outcome, o: Outcome)
    requires Declared(vm, np, a, r, oa) && Declared(vm, np, b, r, ob)
    requires Declared(vm, np, ECompare(op, a, b), r, o)
    ensures oa == Raise || ob == Raise ==> o == Raise
    ensures oa.Returned? && ob.Returned? ==>
      var x := Asks(vm, op, Get(oa.r, np), Get(ob.r, np));
      if x.None? then o == Raise else Leaves(np, r, o, Bool(x.value == (op != Ne)))
  {
    DeclaredIs(vm, np, a, r, oa);
    DeclaredIs(vm, np, b, r, ob);
    DeclaredIs(vm, np, ECompare(op, a, b), r, o);
    hide Declared;
  }

  /** An assignment changes one local, to what a declaration would give it. */
  lemma Assigns(vm: Vm, np: nat, reg: nat, e: Expr, r: Regs, oe: Outcome, o: Outcome)
    requires reg < np && Declared(vm, np, e, r, oe) && Ran(vm, np, [SAssign(reg, e)], r, o)
    ensures oe == Raise <==> o == Raise
    ensures oe.Returned? ==> o.Returned? && Get(o.r, reg) == Get(oe.r, np)
    ensures oe.Returned? ==> forall i: nat :: i < np && i != reg ==> Get(o.r, i) == Get(r, i)
  {
    DeclaredIs(vm, np, e, r, oe);
    OneStatement(vm, np, SAssign(reg, e), r);
    hide Eval;
    var v := Eval(vm, e, r);
    if v.Some? {
      var r1 := r[reg := v.value];
      assert Get(r1, reg) == v.value && forall i: nat :: i < np && i != reg ==> Get(r1, i) == Get(r, i);
    }
  }

  /** A declaration without values gives nil to all its locals. */
  lemma DeclaresNils(vm: Vm, np: nat, n: nat, r: Regs, o: Outcome)
    requires n > 0 && Ran(vm, np, [SLocalNil(n)], r, o)
    ensures o.Returned? && forall i: nat :: np <= i < np + n ==> Get(o.r, i) == Nil
    ensures forall i: nat :: i < np ==> Get(o.r, i) == Get(r, i)
  {
    OneStatement(vm, np, SLocalNil(n), r);
    SetNilFrom(r, np, n);
  }
}
