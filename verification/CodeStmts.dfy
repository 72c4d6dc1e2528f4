/** Statements that declare and assign local variables, and what code for a
    sequence of them has to do. */
module CodeStmts {
  import opened Wrappers
  import opened CodeVm
  import opened CodeState
  import opened CodeMeans
  import opened CodeLists

  /** local x = e; local x1, ..., xn; and x = e for a local in `reg`. */
  datatype Stmt = SLocal(e: Expr) | SLocalNil(n: nat) | SAssign(reg: nat, e: Expr)

  /** How many registers a statement asks for at once. */
  function Asked(s: Stmt): nat {
    if s.SLocalNil? then s.n else 1
  }

  function MostAsked(stmts: seq<Stmt>): nat {
    if stmts == [] then 1
    else
      var most, last := MostAsked(stmts[..|stmts| - 1]), Asked(stmts[|stmts| - 1]);
      if last > most then last else most
  }

  lemma {:induction false} AskedAtMost(stmts: seq<Stmt>, i: nat)
    requires i < |stmts|
    ensures Asked(stmts[i]) <= MostAsked(stmts)
    decreases |stmts|
  {
    if i < |stmts| - 1 {
      AskedAtMost(stmts[..|stmts| - 1], i);
    }
  }

  lemma {:induction false} AskedSome(stmts: seq<Stmt>)
    ensures MostAsked(stmts) > 0
    decreases |stmts|
  {
    if stmts != [] {
      AskedSome(stmts[..|stmts| - 1]);
    }
  }

  function Active(s: Stmt, nact: nat): nat {
    match s
    case SLocal(_) => nact + 1
    case SLocalNil(n) => nact + n
    case SAssign(_, _) => nact
  }

  predicate StmtOk(s: Stmt, nact: nat) {
    match s
    case SLocal(e) => LocalsBelow(e, nact)
    case SLocalNil(n) => n > 0
    case SAssign(reg, e) => reg < nact && LocalsBelow(e, nact)
  }

  function Assigned(r: Regs, reg: nat, v: Option<Value>): Option<Regs> {
    if v.None? then None else Some(r[reg := v.value])
  }

  /** The locals after a statement; None when an error was raised. */
  function Exec(vm: Vm, s: Stmt, nact: nat, r: Regs): Option<Regs> {
    match s
    case SLocal(e) => Assigned(r, nact, Eval(vm, e, r))
    case SLocalNil(n) => Some(if n == 0 then r else SetNil(r, nact, nact + n - 1))
    case SAssign(reg, e) => Assigned(r, reg, Eval(vm, e, r))
  }

  function ActiveAll(stmts: seq<Stmt>, nact: nat): nat {
    if stmts == [] then nact else Active(stmts[|stmts| - 1], ActiveAll(stmts[..|stmts| - 1], nact))
  }

  predicate AllOk(stmts: seq<Stmt>, nact: nat) {
    stmts == [] || (AllOk(stmts[..|stmts| - 1], nact) && StmtOk(stmts[|stmts| - 1], ActiveAll(stmts[..|stmts| - 1], nact)))
  }

  function ExecAll(vm: Vm, stmts: seq<Stmt>, nact: nat, r: Regs): Option<Regs> {
    if stmts == [] then Some(r)
    else
      var r1 := ExecAll(vm, stmts[..|stmts| - 1], nact, r);
      if r1.None? then None
      else Exec(vm, stmts[|stmts| - 1], ActiveAll(stmts[..|stmts| - 1], nact), r1.value)
  }

  /** The registers of the active locals are as the program has them. */
  ghost predicate Ends(r: Option<Regs>, nact: nat, o: Outcome) {
    if r.None? then o == Raise else o.Fall? && Keeps(r.value, o.r, nact)
  }

  /** Code generated between two states executes a statement. */
  ghost predicate Executes(vm: Vm, np: nat, s0: State, s: State, stmt: Stmt, nact: nat) {
    true <==> (forall r :: Clean(r, np) ==>
      var o0, o := Reach(vm, s0, r), Reach(vm, s, r);
      if o0.Fall? then Ends(Exec(vm, stmt, nact, o0.r), Active(stmt, nact), o) else o == o0)
  }

  /** All code so far executes these statements. */
  ghost predicate ExecutesAll(vm: Vm, np: nat, s: State, stmts: seq<Stmt>) {
    true <==> (forall r :: Clean(r, np) ==> Ends(ExecAll(vm, stmts, np, r), ActiveAll(stmts, np), Reach(vm, s, r)))
  }

  lemma ComputesExecutes(vm: Vm, np: nat, s0: State, s: State, reg: nat, e: Expr, nact: nat)
    requires Computes(vm, np, s0, s, reg, nact, e) && reg <= nact
    ensures reg == nact ==> Executes(vm, np, s0, s, SLocal(e), nact)
    ensures reg < nact ==> Executes(vm, np, s0, s, SAssign(reg, e), nact)
  {
    forall r | Clean(r, np)
      ensures var o0, o := Reach(vm, s0, r), Reach(vm, s, r);
        if o0.Fall? then
          && (reg == nact ==> Ends(Exec(vm, SLocal(e), nact, o0.r), nact + 1, o))
          && (reg < nact ==> Ends(Exec(vm, SAssign(reg, e), nact, o0.r), nact, o))
        else o == o0
    {
      ComputesFor(vm, np, s0, s, reg, nact, e, r);
    }
  }

  lemma NilsExecute(vm: Vm, np: nat, s0: State, s: State, nact: nat, n: nat)
    requires Nils(vm, np, s0, s, nact, n) && n > 0
    ensures Executes(vm, np, s0, s, SLocalNil(n), nact)
  {
    forall r | Clean(r, np)
      ensures var o0, o := Reach(vm, s0, r), Reach(vm, s, r);
        if o0.Fall? then Ends(Exec(vm, SLocalNil(n), nact, o0.r), nact + n, o) else o == o0
    {
      var o0 := Reach(vm, s0, r);
      if o0.Fall? {
        SetNilFrom(o0.r, nact, n);
      }
    }
  }

  /** What a statement does depends on the active locals only. */
  lemma ExecKeeps(vm: Vm, s: Stmt, nact: nat, r1: Regs, r2: Regs)
    requires StmtOk(s, nact) && Keeps(r1, r2, nact)
    ensures var x1, x2 := Exec(vm, s, nact, r1), Exec(vm, s, nact, r2);
      (x1.None? <==> x2.None?) && (x1.Some? ==> Keeps(x1.value, x2.value, Active(s, nact)))
  {
    if s.SLocalNil? {
      SetNilFrom(r1, nact, s.n);
      SetNilFrom(r2, nact, s.n);
    } else {
      EvalKeeps(vm, s.e, r1, r2, nact);
      var reg := if s.SLocal? then nact else s.reg;
      var v := Eval(vm, s.e, r1);
      if v.Some? {
        var x1, x2 := r1[reg := v.value], r2[reg := v.value];
        forall i: nat | i < Active(s, nact)
          ensures Get(x2, i) == Get(x1, i)
        {
          assert i != reg ==> Get(r2, i) == Get(r1, i);
        }
      }
    }
  }

  /** One more statement. */
  lemma ExecutesOne(vm: Vm, np: nat, s0: State, stmts: seq<Stmt>, s: State, stmt: Stmt)
    requires ExecutesAll(vm, np, s0, stmts) && Executes(vm, np, s0, s, stmt, ActiveAll(stmts, np))
    requires StmtOk(stmt, ActiveAll(stmts, np))
    ensures ExecutesAll(vm, np, s, stmts + [stmt])
    ensures ActiveAll(stmts + [stmt], np) == Active(stmt, ActiveAll(stmts, np))
  {
    var all, nact := stmts + [stmt], ActiveAll(stmts, np);
    assert all[..|all| - 1] == stmts;
    forall r | Clean(r, np)
      ensures Ends(ExecAll(vm, all, np, r), ActiveAll(all, np), Reach(vm, s, r))
    {
      var o0, r1 := Reach(vm, s0, r), ExecAll(vm, stmts, np, r);
      assert Ends(r1, nact, o0);
      if r1.Some? {
        ExecKeeps(vm, stmt, nact, r1.value, o0.r);
      }
    }
  }

  lemma ExecutesNone(vm: Vm, np: nat, s: State)
    requires s.code == []
    ensures ExecutesAll(vm, np, s, [])
  {
  }

  /** The final RETURN: nothing is pending any more, and the run of the whole
      code ends with the locals as the program has them. */
  ghost predicate RunsTo(r: Option<Regs>, nact: nat, o: Outcome) {
    if r.None? then o == Raise else o.Returned? && Keeps(r.value, o.r, nact)
  }

  lemma ReturnRuns(vm: Vm, np: nat, s: State, stmts: seq<Stmt>)
    requires Wf(s) && ExecutesAll(vm, np, s, stmts) && forall p :: p in s.pend ==> p in s.jpc
    ensures var s' := Emit(s, Return);
      s'.pend == {} && forall r :: Clean(r, np) ==>
        RunsTo(ExecAll(vm, stmts, np, r), ActiveAll(stmts, np), Run(vm, s'.k, s'.code, {}, 0, r))
  {
    var d, s' := Discharge(s), Emit(s, Return);
    assert d.pend == {};
    forall r | Clean(r, np)
      ensures RunsTo(ExecAll(vm, stmts, np, r), ActiveAll(stmts, np), Run(vm, s'.k, s'.code, {}, 0, r))
    {
      Discharged(vm, s, r);
      RunAppend(vm, d.k, d.code, d.pend, d.last, [Return], d.pend, 0, r);
      assert Ends(ExecAll(vm, stmts, np, r), ActiveAll(stmts, np), Reach(vm, s, r));
    }
  }

  /** In finished code no TESTSET is left without a register. */
  lemma ReturnRegisters(s: State)
    requires Wf(s) && forall p :: p in s.pend ==> p in s.jpc
    ensures forall i :: 0 <= i < |Emit(s, Return).code| ==>
      !(Emit(s, Return).code[i].TestSet? && Emit(s, Return).code[i].a == NO_REG)
  {
    var d := Discharge(s);
    Discharged(Anything(), s, map[]);
    assert d.pend == {};
    forall i | 0 <= i < |d.code|
      ensures !(d.code[i].TestSet? && d.code[i].a == NO_REG)
    {
      assert InstrOk(d.code, d.pend, |d.k|, d.last, i);
    }
  }
}
