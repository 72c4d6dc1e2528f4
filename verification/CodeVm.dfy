/** The instructions that short-circuit expressions compile to, and what
    lvm.c does with them. Code is looked at while it is still being generated:
    a jump may be pending, its target not known yet. */
module CodeVm {
  import opened Wrappers

  /** Numbers and strings are opaque constants. */
  datatype Value = Nil | Bool(b: bool) | Number(n: int) | Text(n: int)

  type Regs = map<nat, Value>

  function Get(r: Regs, a: nat): Value {
    if a in r then r[a] else Nil
  }

  predicate IsFalse(v: Value) {
    v == Nil || v == Bool(false)
  }

  const NO_REG := 255
  const BITRK := 256

  datatype CompOp = EQ | LT | LE

  /** The comparisons, metamethods included; None stands for an error. */
  datatype Vm = Vm(rel: (CompOp, Value, Value) -> Option<bool>)

  datatype Instr =
    | Move(a: nat, b: nat)
    | LoadK(a: nat, bx: nat)
    | LoadBool(a: nat, v: bool, skip: bool)
    | LoadNil(a: nat, b: nat)
    | Not(a: nat, b: nat)
    | Jmp(sbx: int)
    | Compare(op: CompOp, cond: bool, b: nat, c: nat)
    | Test(a: nat, cond: bool)
    | TestSet(a: nat, b: nat, cond: bool)
    | Return

  predicate IsTest(i: Instr) {
    i.Compare? || i.Test? || i.TestSet?
  }

  predicate IsK(x: nat) {
    x >= BITRK
  }

  function K(k: seq<Value>, i: nat): Value {
    if i < |k| then k[i] else Nil
  }

  /** An operand that is a register or a constant. */
  function RK(k: seq<Value>, r: Regs, x: nat): Value {
    if IsK(x) then K(k, x - BITRK) else Get(r, x)
  }

  function SetNil(r: Regs, a: nat, b: nat): Regs
    decreases b - a
  {
    if a > b then r else SetNil(r, a + 1, b)[a := Nil]
  }

  /** What one instruction does: go to the next one, skip one, or take the jump
      that is, or follows, the instruction. */
  datatype Effect = Next(r: Regs) | Skip(r: Regs) | TakeJump(r: Regs) | Goto | Stop | Fail

  function Step(vm: Vm, k: seq<Value>, i: Instr, r: Regs): Effect {
    match i
    case Move(a, b) => Next(r[a := Get(r, b)])
    case LoadK(a, bx) => Next(r[a := K(k, bx)])
    case LoadBool(a, v, skip) => if skip then Skip(r[a := Bool(v)]) else Next(r[a := Bool(v)])
    case LoadNil(a, b) => Next(SetNil(r, a, b))
    case Not(a, b) => Next(r[a := Bool(IsFalse(Get(r, b)))])
    case Jmp(_) => Goto
    case Compare(op, cond, b, c) => (
      match vm.rel(op, RK(k, r, b), RK(k, r, c))
      case None => Fail
      case Some(x) => if x == cond then TakeJump(r) else Skip(r))
    case Return => Stop
    case Test(a, cond) => if IsFalse(Get(r, a)) != cond then TakeJump(r) else Skip(r)
    case TestSet(a, b, cond) =>
      if IsFalse(Get(r, b)) != cond then TakeJump(if a == NO_REG then r else r[a := Get(r, b)]) else Skip(r)
  }

  /** How a run over a piece of code ends: at its end, at a pending jump, with
      the return from the function, or with an error. */
  datatype Outcome = Fall(r: Regs) | Exit(p: nat, r: Regs) | Returned(r: Regs) | Raise | Stuck

  function Run(vm: Vm, k: seq<Value>, code: seq<Instr>, pend: set<nat>, pc: nat, r: Regs): Outcome
    decreases |code| - pc, 1
  {
    if pc >= |code| then if pc == |code| then Fall(r) else Stuck
    else
      match Step(vm, k, code[pc], r)
      case Next(r1) => Run(vm, k, code, pend, pc + 1, r1)
      case Skip(r1) => Run(vm, k, code, pend, pc + 2, r1)
      case TakeJump(r1) => if pc + 1 < |code| && code[pc + 1].Jmp? then Take(vm, k, code, pend, pc + 1, r1) else Stuck
      case Goto => Take(vm, k, code, pend, pc, r)
      case Stop => Returned(r)
      case Fail => Raise
  }

  function Target(code: seq<Instr>, p: nat): int
    requires p < |code| && code[p].Jmp?
  {
    p + 1 + code[p].sbx
  }

  function Take(vm: Vm, k: seq<Value>, code: seq<Instr>, pend: set<nat>, p: nat, r: Regs): Outcome
    requires p < |code| && code[p].Jmp?
    decreases |code| - p, 0
  {
    if p in pend then Exit(p, r)
    else if p < Target(code, p) then Run(vm, k, code, pend, Target(code, p), r)
    else Stuck
  }

  // ----- well-formed code -----

  /** A run may arrive at `t` from elsewhere: not between a test and its jump. */
  predicate Landing(code: seq<Instr>, t: int) {
    0 <= t <= |code| && (t > 0 ==> !IsTest(code[t - 1]))
  }

  predicate OperandOk(nk: nat, x: nat) {
    IsK(x) ==> x - BITRK < nk
  }

  predicate InstrOk(code: seq<Instr>, pend: set<nat>, nk: nat, last: int, i: nat)
    requires i < |code|
  {
    match code[i]
    case Jmp(_) => i in pend || (i < Target(code, i) <= last && Landing(code, Target(code, i)))
    case LoadBool(_, _, skip) => skip ==> i + 2 <= last && i + 2 <= |code| && code[i + 1].LoadBool?
    case LoadK(_, bx) => bx < nk
    case Compare(_, _, b, c) => OperandOk(nk, b) && OperandOk(nk, c) && i + 1 < |code| && code[i + 1].Jmp?
    case Test(_, _) => i + 1 < |code| && code[i + 1].Jmp?
    case TestSet(a, _, _) => i + 1 < |code| && code[i + 1].Jmp? && (i + 1 in pend <==> a == NO_REG)
    case _ => true
  }

  /** Tests are followed by their jumps, no jump that is not pending leads past
      `last`, and none leads backwards. */
  ghost predicate Shape(code: seq<Instr>, pend: set<nat>, nk: nat, last: int) {
    true <==> (
      && last <= |code|
      && (forall i :: 0 <= i < |code| ==> InstrOk(code, pend, nk, last, i))
      && (forall p :: p in pend ==> p < |code| && code[p].Jmp?)
    )
  }

  /** Code that was run to its end goes on with what follows it. */
  lemma {:induction false} RunAppend(vm: Vm, k: seq<Value>, code: seq<Instr>, pend: set<nat>, last: int,
                                     tail: seq<Instr>, pend': set<nat>, pc: nat, r: Regs)
    requires Shape(code, pend, |k|, last) && Landing(code, pc)
    requires forall p :: 0 <= p < |code| ==> (p in pend <==> p in pend')
    ensures Run(vm, k, code + tail, pend', pc, r) ==
      match Run(vm, k, code, pend, pc, r)
      case Fall(r1) => Run(vm, k, code + tail, pend', |code|, r1)
      case o => o
    decreases |code| - pc, 1
  {
    if pc < |code| {
      assert InstrOk(code, pend, |k|, last, pc);
      assert (code + tail)[pc] == code[pc];
      match Step(vm, k, code[pc], r)
      case Next(r1) => RunAppend(vm, k, code, pend, last, tail, pend', pc + 1, r1);
      case Skip(r1) => RunAppend(vm, k, code, pend, last, tail, pend', pc + 2, r1);
      case TakeJump(r1) => TakeAppend(vm, k, code, pend, last, tail, pend', pc + 1, r1);
      case Goto => TakeAppend(vm, k, code, pend, last, tail, pend', pc, r);
      case Stop =>
      case Fail =>
    }
  }

  lemma {:induction false} TakeAppend(vm: Vm, k: seq<Value>, code: seq<Instr>, pend: set<nat>, last: int,
                                      tail: seq<Instr>, pend': set<nat>, p: nat, r: Regs)
    requires Shape(code, pend, |k|, last) && p < |code| && code[p].Jmp?
    requires forall p :: 0 <= p < |code| ==> (p in pend <==> p in pend')
    ensures Take(vm, k, code + tail, pend', p, r) ==
      match Take(vm, k, code, pend, p, r)
      case Fall(r1) => Run(vm, k, code + tail, pend', |code|, r1)
      case o => o
    decreases |code| - p, 0
  {
    assert InstrOk(code, pend, |k|, last, p);
    assert (code + tail)[p] == code[p];
    if p !in pend {
      RunAppend(vm, k, code, pend, last, tail, pend', Target(code, p), r);
    }
  }

  /** More constants change nothing. */
  lemma {:induction false} RunMoreK(vm: Vm, k: seq<Value>, k': seq<Value>, code: seq<Instr>, pend: set<nat>, last: int,
      pc: nat, r: Regs)
    requires Shape(code, pend, |k|, last) && k <= k'
    ensures Run(vm, k', code, pend, pc, r) == Run(vm, k, code, pend, pc, r)
    decreases |code| - pc
  {
    if pc < |code| {
      assert InstrOk(code, pend, |k|, last, pc);
      match Step(vm, k, code[pc], r)
      case Next(r1) => RunMoreK(vm, k, k', code, pend, last, pc + 1, r1);
      case Skip(r1) => RunMoreK(vm, k, k', code, pend, last, pc + 2, r1);
      case TakeJump(r1) =>
        assert InstrOk(code, pend, |k|, last, pc + 1);
        if pc + 1 !in pend {
          RunMoreK(vm, k, k', code, pend, last, Target(code, pc + 1), r1);
        }
      case Goto =>
        if pc !in pend {
          RunMoreK(vm, k, k', code, pend, last, Target(code, pc), r);
        }
      case Stop =>
      case Fail =>
    }
  }

  /** The same code, but for the links in pending jumps and tests that would set
      no register anyway. */
  ghost predicate Alike(code: seq<Instr>, code': seq<Instr>, pend: set<nat>) {
    |code'| == |code| && forall i :: 0 <= i < |code| ==>
      || code'[i] == code[i]
      || (i in pend && code[i].Jmp? && code'[i].Jmp?)
      || (code[i].TestSet? && code[i].a == NO_REG && code'[i] == Test(code[i].b, code[i].cond))
  }

  lemma {:induction false} RunAlike(vm: Vm, k: seq<Value>, code: seq<Instr>, code': seq<Instr>, pend: set<nat>, pc: nat,
      r: Regs)
    requires Alike(code, code', pend)
    ensures Run(vm, k, code', pend, pc, r) == Run(vm, k, code, pend, pc, r)
    decreases |code| - pc
  {
    if pc < |code| {
      assert Step(vm, k, code'[pc], r) == Step(vm, k, code[pc], r);
      match Step(vm, k, code[pc], r)
      case Next(r1) => RunAlike(vm, k, code, code', pend, pc + 1, r1);
      case Skip(r1) => RunAlike(vm, k, code, code', pend, pc + 2, r1);
      case TakeJump(r1) =>
        if pc + 1 < |code| && code[pc + 1].Jmp? && pc + 1 !in pend && pc + 1 < Target(code, pc + 1) {
          RunAlike(vm, k, code, code', pend, Target(code, pc + 1), r1);
        }
      case Goto =>
        if pc !in pend && pc < Target(code, pc) {
          RunAlike(vm, k, code, code', pend, Target(code, pc), r);
        }
      case Stop =>
      case Fail =>
    }
  }

  lemma {:induction false} ExitsPend(vm: Vm, k: seq<Value>, code: seq<Instr>, pend: set<nat>, pc: nat, r: Regs)
    ensures Run(vm, k, code, pend, pc, r).Exit? ==> Run(vm, k, code, pend, pc, r).p in pend
    decreases |code| - pc
  {
    if pc < |code| {
      match Step(vm, k, code[pc], r)
      case Next(r1) => ExitsPend(vm, k, code, pend, pc + 1, r1);
      case Skip(r1) => ExitsPend(vm, k, code, pend, pc + 2, r1);
      case TakeJump(r1) =>
        if pc + 1 < |code| && code[pc + 1].Jmp? && pc + 1 !in pend && pc + 1 < Target(code, pc + 1) {
          ExitsPend(vm, k, code, pend, Target(code, pc + 1), r1);
        }
      case Goto =>
        if pc !in pend && pc < Target(code, pc) {
          ExitsPend(vm, k, code, pend, Target(code, pc), r);
        }
      case Stop =>
      case Fail =>
    }
  }

  // ----- patching one jump -----

  /** patchtestreg answers yes exactly for these. */
  predicate Patchable(code: seq<Instr>, p: nat)
    requires p < |code|
  {
    p >= 1 && code[p - 1].TestSet?
  }

  /** The control of a jump after patchtestreg. */
  function Patched(i: Instr, reg: nat): Instr
    requires i.TestSet?
  {
    if reg != NO_REG && reg != i.b then TestSet(reg, i.b, i.cond) else Test(i.b, i.cond)
  }

  function PatchJump(code: seq<Instr>, p: nat, reg: nat, vtarget: int, dtarget: int): seq<Instr>
    requires p < |code|
  {
    if Patchable(code, p) then code[p - 1 := Patched(code[p - 1], reg)][p := Jmp(vtarget - (p + 1))]
    else code[p := Jmp(dtarget - (p + 1))]
  }

  function JumpTarget(code: seq<Instr>, p: nat, vtarget: int, dtarget: int): int
    requires p < |code|
  {
    if Patchable(code, p) then vtarget else dtarget
  }

  /** The registers after the jump at `p` was taken in the patched code. */
  function Moved(code: seq<Instr>, p: nat, reg: nat, r: Regs): Regs
    requires p < |code|
  {
    if Patchable(code, p) && reg != NO_REG && reg != code[p - 1].b then r[reg := Get(r, code[p - 1].b)] else r
  }

  lemma {:induction false} RunPatch(vm: Vm, k: seq<Value>, code: seq<Instr>, pend: set<nat>, last: int,
                                    p: nat, reg: nat, vtarget: int, dtarget: int, pc: nat, r: Regs)
    requires Shape(code, pend, |k|, last) && Landing(code, pc) && p in pend && p < |code|
    requires p < JumpTarget(code, p, vtarget, dtarget)
    ensures var code', t := PatchJump(code, p, reg, vtarget, dtarget), JumpTarget(code, p, vtarget, dtarget);
      Run(vm, k, code', pend - {p}, pc, r) ==
      match Run(vm, k, code, pend, pc, r)
      case Exit(q, r1) => if q == p then Run(vm, k, code', pend - {p}, t, Moved(code, p, reg, r1)) else Exit(q, r1)
      case o => o
    decreases |code| - pc, 1
  {
    if pc < |code| {
      assert InstrOk(code, pend, |k|, last, pc);
      if pc + 1 == p && IsTest(code[pc]) {
        PatchControl(vm, k, code, pend, last, p, reg, vtarget, dtarget, r);
      } else {
        var code' := PatchJump(code, p, reg, vtarget, dtarget);
        assert pc != p ==> code'[pc] == code[pc];
        match Step(vm, k, code[pc], r)
        case Next(r1) => RunPatch(vm, k, code, pend, last, p, reg, vtarget, dtarget, pc + 1, r1);
        case Skip(r1) => RunPatch(vm, k, code, pend, last, p, reg, vtarget, dtarget, pc + 2, r1);
        case TakeJump(r1) => TakePatch(vm, k, code, pend, last, p, reg, vtarget, dtarget, pc + 1, r1);
        case Goto => TakePatch(vm, k, code, pend, last, p, reg, vtarget, dtarget, pc, r);
        case Stop =>
      case Fail =>
      }
    }
  }

  lemma {:induction false} TakePatch(vm: Vm, k: seq<Value>, code: seq<Instr>, pend: set<nat>, last: int,
                                     p: nat, reg: nat, vtarget: int, dtarget: int, q: nat, r: Regs)
    requires Shape(code, pend, |k|, last) && p in pend && p < |code|
    requires p < JumpTarget(code, p, vtarget, dtarget)
    requires q < |code| && code[q].Jmp? && (q == p ==> !Patchable(code, p))
    ensures var code', t := PatchJump(code, p, reg, vtarget, dtarget), JumpTarget(code, p, vtarget, dtarget);
      Take(vm, k, code', pend - {p}, q, r) ==
      match Take(vm, k, code, pend, q, r)
      case Exit(q', r1) => if q' == p then Run(vm, k, code', pend - {p}, t, Moved(code, p, reg, r1)) else Exit(q', r1)
      case o => o
    decreases |code| - q, 0
  {
    assert InstrOk(code, pend, |k|, last, q);
    assert code[p].Jmp?;
    if q !in pend {
      var code' := PatchJump(code, p, reg, vtarget, dtarget);
      assert code'[q] == code[q];
      RunPatch(vm, k, code, pend, last, p, reg, vtarget, dtarget, Target(code, q), r);
    }
  }

  /** The run arrives at the test that controls the patched jump. */
  lemma {:induction false} PatchControl(vm: Vm, k: seq<Value>, code: seq<Instr>, pend: set<nat>, last: int,
                                        p: nat, reg: nat, vtarget: int, dtarget: int, r: Regs)
    requires Shape(code, pend, |k|, last) && p in pend && 0 < p < |code| && IsTest(code[p - 1])
    requires p < JumpTarget(code, p, vtarget, dtarget)
    ensures var code', t := PatchJump(code, p, reg, vtarget, dtarget), JumpTarget(code, p, vtarget, dtarget);
      Run(vm, k, code', pend - {p}, p - 1, r) ==
      match Run(vm, k, code, pend, p - 1, r)
      case Exit(q, r1) => if q == p then Run(vm, k, code', pend - {p}, t, Moved(code, p, reg, r1)) else Exit(q, r1)
      case o => o
    decreases |code| - p, 2
  {
    assert InstrOk(code, pend, |k|, last, p - 1);
    assert code[p].Jmp?;
    match Step(vm, k, code[p - 1], r)
    case Skip(r1) => RunPatch(vm, k, code, pend, last, p, reg, vtarget, dtarget, p + 1, r1);
    case _ =>
  }
}
