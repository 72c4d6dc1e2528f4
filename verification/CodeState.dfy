/** States of code generation as values: what emitting and patching code does to
    the runs that reach its end. */
module CodeState {
  import opened Wrappers
  import opened CodeVm

  /** Constants, code, the jumps whose target is not known, those among them
      that wait for the next instruction, and the last position known to be a
      jump target. */
  datatype State = State(k: seq<Value>, code: seq<Instr>, pend: set<nat>, jpc: seq<nat>, last: int)

  ghost predicate Wf(s: State) {
    true <==> (
      && Shape(s.code, s.pend, |s.k|, s.last)
      && Distinct(s.jpc) && (forall p :: p in s.jpc ==> p in s.pend)
      && (s.jpc != [] ==> s.last == |s.code|)
    )
  }

  /** Where a run of the code so far leads: pending jumps to here have arrived. */
  ghost function Reach(vm: Vm, s: State, r: Regs): Outcome {
    match Run(vm, s.k, s.code, s.pend, 0, r)
    case Exit(p, r1) => if p in s.jpc then Fall(r1) else Exit(p, r1)
    case o => o
  }

  // ----- patching a list of jumps -----

  function PatchAll(code: seq<Instr>, list: seq<nat>, reg: nat, vtarget: int, dtarget: int): (r: seq<Instr>)
    ensures |r| == |code|
    decreases |list|
  {
    if list == [] || list[0] >= |code| then code
    else PatchAll(PatchJump(code, list[0], reg, vtarget, dtarget), list[1..], reg, vtarget, dtarget)
  }

  /** Where the jumps of a list may be sent: values to the end, others to an
      instruction at the end that loads a boolean, or to the end as well. */
  predicate DefaultOk(code: seq<Instr>, d: int) {
    || d == |code|
    || (0 <= d < |code| && code[d].LoadBool? && d + (if code[d].skip then 2 else 1) == |code|)
  }

  predicate ListOk(code: seq<Instr>, list: seq<nat>, d: int) {
    forall p :: p in list ==> p < |code| && code[p].Jmp? && (Patchable(code, p) || (DefaultOk(code, d) && p < d && Landing(code, d)))
  }

  /** How a run that took the jump at `p` ends once it is patched. */
  function Land(code: seq<Instr>, p: nat, reg: nat, d: int, r: Regs): Outcome
    requires p < |code|
  {
    if Patchable(code, p) then Fall(Moved(code, p, reg, r))
    else if 0 <= d < |code| && code[d].LoadBool? then Fall(r[code[d].a := Bool(code[d].v)])
    else Fall(r)
  }

  lemma PatchShape(code: seq<Instr>, pend: set<nat>, nk: nat, last: int, p: nat, reg: nat, v: int, d: int)
    requires Shape(code, pend, nk, last) && p in pend && p < |code|
    requires p < JumpTarget(code, p, v, d) <= last && Landing(code, JumpTarget(code, p, v, d))
    ensures Shape(PatchJump(code, p, reg, v, d), pend - {p}, nk, last)
  {
    var code' := PatchJump(code, p, reg, v, d);
    assert code[p].Jmp?;
    assert forall i :: 0 <= i < |code| ==> (IsTest(code'[i]) <==> IsTest(code[i])) && (code'[i].Jmp? <==> code[i].Jmp?);
    forall i | 0 <= i < |code|
      ensures InstrOk(code', pend - {p}, nk, last, i)
    {
      assert InstrOk(code, pend, nk, last, i);
      if i != p && i + 1 != p {
        assert code'[i] == code[i];
      }
    }
  }

  /** What patching one jump leaves to the others. */
  lemma PatchOthers(code: seq<Instr>, p: nat, reg: nat, v: int, d: int)
    requires p < |code| && code[p].Jmp?
    ensures var code' := PatchJump(code, p, reg, v, d);
      && (forall q :: 0 <= q < |code| && q != p && q + 1 != p ==> code'[q] == code[q])
      && (forall q :: 0 <= q < |code| && q != p ==> (Patchable(code', q) <==> Patchable(code, q)))
      && (forall q :: 0 <= q < |code| && q != p && Patchable(code, q) ==> code'[q - 1] == code[q - 1])
      && (forall q :: 0 <= q < |code| ==> (code'[q].Jmp? <==> code[q].Jmp?) && (code[q].LoadBool? || code'[q].LoadBool? ==> code'[q] == code[q]))
      && (forall q :: Landing(code', q) <==> Landing(code, q))
  {
  }

  /** The same for a whole list. */
  lemma {:induction false} PatchAllOthers(code: seq<Instr>, list: seq<nat>, reg: nat, v: int, d: int)
    requires forall p :: p in list ==> p < |code| && code[p].Jmp?
    ensures var code' := PatchAll(code, list, reg, v, d);
      && (forall q :: 0 <= q < |code| && q !in list && q + 1 !in list ==> code'[q] == code[q])
      && (forall q :: 0 <= q < |code| && q !in list ==> (Patchable(code', q) <==> Patchable(code, q)))
      && (forall q :: 0 <= q < |code| && q !in list && Patchable(code, q) ==> code'[q - 1] == code[q - 1])
      && (forall q :: 0 <= q < |code| ==> (code'[q].Jmp? <==> code[q].Jmp?) && (code[q].LoadBool? || code'[q].LoadBool? ==> code'[q] == code[q]))
      && (forall q :: Landing(code', q) <==> Landing(code, q))
    decreases |list|
  {
    if list != [] {
      assert list[0] in list && forall q :: q in list <==> q == list[0] || q in list[1..];
      PatchOthers(code, list[0], reg, v, d);
      PatchAllOthers(PatchJump(code, list[0], reg, v, d), list[1..], reg, v, d);
    }
  }

  lemma {:induction false} PatchAllRun(vm: Vm, k: seq<Value>, code: seq<Instr>, pend: set<nat>, list: seq<nat>,
      reg: nat, d: int, r: Regs)
    requires Shape(code, pend, |k|, |code|) && Distinct(list) && (forall p :: p in list ==> p in pend)
    requires ListOk(code, list, d)
    ensures Shape(PatchAll(code, list, reg, |code|, d), pend - SetOf(list), |k|, |code|)
    ensures Run(vm, k, PatchAll(code, list, reg, |code|, d), pend - SetOf(list), 0, r) ==
      match Run(vm, k, code, pend, 0, r)
      case Exit(q, r1) => if q in list then Land(code, q, reg, d, r1) else Exit(q, r1)
      case o => o
    decreases |list|
  {
    if list == [] {
      assert pend - SetOf(list) == pend;
    } else {
      var p, rest := list[0], list[1..];
      assert p in list && p !in rest && forall q :: q in rest ==> q in list;
      var code' := PatchJump(code, p, reg, |code|, d);
      EndLands(code, pend, |k|);
      PatchShape(code, pend, |k|, |code|, p, reg, |code|, d);
      PatchOthers(code, p, reg, |code|, d);
      RunPatch(vm, k, code, pend, |code|, p, reg, |code|, d, 0, r);
      PatchAllRun(vm, k, code', pend - {p}, rest, reg, d, r);
      assert pend - {p} - SetOf(rest) == pend - SetOf(list);
      OneLands(vm, k, code, pend, list, reg, d, p, r);
    }
  }

  lemma EndLands(code: seq<Instr>, pend: set<nat>, nk: nat)
    requires Shape(code, pend, nk, |code|)
    ensures Landing(code, |code|)
  {
    if |code| > 0 {
      assert InstrOk(code, pend, nk, |code|, |code| - 1);
    }
  }

  /** The first patched jump lands as said. */
  lemma OneLands(vm: Vm, k: seq<Value>, code: seq<Instr>, pend: set<nat>, list: seq<nat>, reg: nat, d: int, p: nat,
      r: Regs)
    requires p in list && p < |code| && ListOk(code, list, d)
    ensures forall r1, pend' ::
      Run(vm, k, PatchJump(code, p, reg, |code|, d), pend', JumpTarget(code, p, |code|, d), Moved(code, p, reg, r1)) == Land(code, p, reg, d, r1)
  {
    PatchOthers(code, p, reg, |code|, d);
  }

  // ----- emitting code -----

  lemma ShapeLater(code: seq<Instr>, pend: set<nat>, nk: nat, last: int, last': int)
    requires Shape(code, pend, nk, last) && last <= last' <= |code|
    ensures Shape(code, pend, nk, last')
  {
    forall i | 0 <= i < |code|
      ensures InstrOk(code, pend, nk, last', i)
    {
      assert InstrOk(code, pend, nk, last, i);
    }
  }

  /** dischargejpc: jumps to here get their target before the next instruction. */
  ghost function Discharge(s: State): State {
    s.(code := PatchAll(s.code, s.jpc, NO_REG, |s.code|, |s.code|), pend := s.pend - SetOf(s.jpc), jpc := [])
  }

  lemma Discharged(vm: Vm, s: State, r: Regs)
    requires Wf(s)
    ensures Wf(Discharge(s))
    ensures var d := Discharge(s); Run(vm, d.k, d.code, d.pend, 0, r) == Reach(vm, s, r)
  {
    ShapeLater(s.code, s.pend, |s.k|, s.last, |s.code|);
    EndLands(s.code, s.pend, |s.k|);
    forall p | p in s.jpc
      ensures p < |s.code| && s.code[p].Jmp?
    {
      assert p in s.pend;
    }
    PatchAllRun(vm, s.k, s.code, s.pend, s.jpc, NO_REG, |s.code|, r);
    if s.jpc == [] {
      assert s.pend - SetOf(s.jpc) == s.pend;
    }
  }

  predicate Straight(i: Instr) {
    i.Move? || i.LoadK? || i.LoadNil? || i.Not? || (i.LoadBool? && !i.skip)
  }

  function Done(k: seq<Value>, i: Instr, r: Regs): Regs {
    match i
    case Move(a, b) => r[a := Get(r, b)]
    case LoadK(a, bx) => r[a := K(k, bx)]
    case LoadBool(a, v, _) => r[a := Bool(v)]
    case LoadNil(a, b) => SetNil(r, a, b)
    case Not(a, b) => r[a := Bool(IsFalse(Get(r, b)))]
    case _ => r
  }

  ghost function Emit(s: State, i: Instr): State {
    var d := Discharge(s);
    d.(code := d.code + [i])
  }

  function Went(o: Outcome, k: seq<Value>, i: Instr): Outcome {
    if o.Fall? then Fall(Done(k, i, o.r)) else o
  }

  lemma Emitted(vm: Vm, s: State, i: Instr, r: Regs)
    requires Wf(s) && Straight(i) && (i.LoadK? ==> i.bx < |s.k|)
    ensures Wf(Emit(s, i))
    ensures Reach(vm, Emit(s, i), r) == Went(Reach(vm, s, r), s.k, i)
  {
    var d := Discharge(s);
    Discharged(vm, s, r);
    RunAppend(vm, d.k, d.code, d.pend, d.last, [i], d.pend, 0, r);
    AppendShape(d.code, d.pend, |d.k|, d.last, [i], d.pend);
  }

  lemma AppendShape(code: seq<Instr>, pend: set<nat>, nk: nat, last: int, tail: seq<Instr>, pend': set<nat>)
    requires Shape(code, pend, nk, last)
    requires forall p :: p in pend ==> p in pend'
    requires forall p :: p in pend' ==> p in pend || (|code| <= p < |code| + |tail| && tail[p - |code|].Jmp?)
    requires forall i :: |code| <= i < |code + tail| ==> InstrOk(code + tail, pend', nk, last, i)
    ensures Shape(code + tail, pend', nk, last)
  {
    var code' := code + tail;
    forall i | 0 <= i < |code|
      ensures InstrOk(code', pend', nk, last, i)
    {
      assert InstrOk(code, pend, nk, last, i);
      assert code'[i] == code[i];
      assert i + 1 < |code| ==> code'[i + 1] == code[i + 1];
    }
  }

  /** condjump: a test and its jump, which is pending. */
  ghost function EmitTest(s: State, i: Instr): State {
    var d := Discharge(s);
    d.(code := d.code + [i, Jmp(-1)], pend := d.pend + {|d.code| + 1})
  }

  function Branched(vm: Vm, o: Outcome, k: seq<Value>, i: Instr, p: nat): Outcome {
    if o.Fall? then TestEnds(Step(vm, k, i, o.r), p) else o
  }

  function TestEnds(e: Effect, p: nat): Outcome {
    match e
    case TakeJump(r) => Exit(p, r)
    case Skip(r) => Fall(r)
    case _ => Raise
  }

  lemma Tested(vm: Vm, s: State, i: Instr, r: Regs)
    requires Wf(s) && IsTest(i) && (i.TestSet? ==> i.a == NO_REG)
    requires i.Compare? ==> OperandOk(|s.k|, i.b) && OperandOk(|s.k|, i.c)
    ensures Wf(EmitTest(s, i))
    ensures Reach(vm, EmitTest(s, i), r) == Branched(vm, Reach(vm, s, r), s.k, i, |s.code| + 1)
  {
    var d := Discharge(s);
    var t := EmitTest(s, i);
    Discharged(vm, s, r);
    assert |d.code| + 1 !in d.pend;
    RunAppend(vm, d.k, d.code, d.pend, d.last, [i, Jmp(-1)], t.pend, 0, r);
    AppendShape(d.code, d.pend, |d.k|, d.last, [i, Jmp(-1)], t.pend);
  }

  /** luaK_patchtohere. */
  ghost function ToHere(s: State, list: seq<nat>): State {
    s.(jpc := s.jpc + list, last := |s.code|)
  }

  function Joined(o: Outcome, list: seq<nat>): Outcome {
    if o.Exit? && o.p in list then Fall(o.r) else o
  }

  lemma Arrived(vm: Vm, s: State, list: seq<nat>, r: Regs)
    requires Wf(s) && Distinct(s.jpc + list) && forall p :: p in list ==> p in s.pend
    ensures Wf(ToHere(s, list))
    ensures Reach(vm, ToHere(s, list), r) == Joined(Reach(vm, s, r), list)
  {
    ShapeLater(s.code, s.pend, |s.k|, s.last, |s.code|);
  }

  // ----- the end of an expression with jumps -----

  /** The loads of both booleans after an expression whose value is in its
      register already; a jump leads around them. */
  ghost function BoolsAround(s: State, reg: nat): State {
    var n := |s.code|;
    State(s.k, s.code + [Jmp(-1), LoadBool(reg, false, true), LoadBool(reg, true, false)], s.pend + {n}, [n] + s.jpc, n + 3)
  }

  lemma Around(vm: Vm, s: State, reg: nat, r: Regs)
    requires Wf(s)
    ensures Wf(BoolsAround(s, reg))
    ensures Reach(vm, BoolsAround(s, reg), r) == Reach(vm, s, r)
  {
    var b := BoolsAround(s, reg);
    var tail := [Jmp(-1), LoadBool(reg, false, true), LoadBool(reg, true, false)];
    assert |s.code| !in s.pend;
    ExitsPend(vm, s.k, s.code, s.pend, 0, r);
    RunAppend(vm, s.k, s.code, s.pend, s.last, tail, b.pend, 0, r);
    ShapeMore(s.code, s.pend, |s.k|, s.last, tail, b.pend, b.last);
  }

  lemma ShapeMore(code: seq<Instr>, pend: set<nat>, nk: nat, last: int, tail: seq<Instr>, pend': set<nat>, last': int)
    requires Shape(code, pend, nk, last) && last <= last' <= |code + tail|
    requires forall p :: p in pend ==> p in pend'
    requires forall p :: p in pend' ==> p in pend || (|code| <= p < |code| + |tail| && tail[p - |code|].Jmp?)
    requires forall i :: |code| <= i < |code + tail| ==> InstrOk(code + tail, pend', nk, last', i)
    ensures Shape(code + tail, pend', nk, last')
  {
    var code' := code + tail;
    forall i | 0 <= i < |code|
      ensures InstrOk(code', pend', nk, last', i)
    {
      assert InstrOk(code, pend, nk, last, i);
      assert code'[i] == code[i];
      assert i + 1 < |code| ==> code'[i + 1] == code[i + 1];
    }
  }

  /** The same after a comparison: what falls through is false. */
  ghost function BoolsAfter(s: State, reg: nat): State {
    s.(code := s.code + [LoadBool(reg, false, true), LoadBool(reg, true, false)], last := |s.code| + 2)
  }

  lemma After(vm: Vm, s: State, reg: nat, r: Regs)
    requires Wf(s) && s.jpc == []
    ensures Wf(BoolsAfter(s, reg))
    ensures Reach(vm, BoolsAfter(s, reg), r) == Went(Reach(vm, s, r), s.k, LoadBool(reg, false, false))
  {
    var b := BoolsAfter(s, reg);
    var tail := [LoadBool(reg, false, true), LoadBool(reg, true, false)];
    RunAppend(vm, s.k, s.code, s.pend, s.last, tail, b.pend, 0, r);
    ShapeMore(s.code, s.pend, |s.k|, s.last, tail, b.pend, b.last);
  }

  /** Jumps of a list are sent to the end, with their value, or to the load of
      a boolean at `d`. */
  ghost function Patch(s: State, list: seq<nat>, reg: nat, d: int): State {
    s.(code := PatchAll(s.code, list, reg, |s.code|, d), pend := s.pend - SetOf(list), last := |s.code|)
  }

  function Landed(o: Outcome, code: seq<Instr>, list: seq<nat>, reg: nat, d: int): Outcome {
    if o.Exit? && o.p in list && o.p < |code| then Land(code, o.p, reg, d, o.r) else o
  }

  lemma Patching(vm: Vm, s: State, list: seq<nat>, reg: nat, d: int, r: Regs)
    requires Wf(s) && Distinct(list) && (forall p :: p in list ==> p in s.pend && p !in s.jpc)
    requires ListOk(s.code, list, d)
    ensures Wf(Patch(s, list, reg, d))
    ensures Reach(vm, Patch(s, list, reg, d), r) == Landed(Reach(vm, s, r), s.code, list, reg, d)
  {
    ShapeLater(s.code, s.pend, |s.k|, s.last, |s.code|);
    PatchAllRun(vm, s.k, s.code, s.pend, list, reg, d, r);
  }

  // ----- changes that keep or only rename the runs -----

  lemma AlikeReach(vm: Vm, s: State, code': seq<Instr>, r: Regs)
    requires Wf(s) && Alike(s.code, code', s.pend)
    ensures Wf(s.(code := code'))
    ensures Reach(vm, s.(code := code'), r) == Reach(vm, s, r)
  {
    RunAlike(vm, s.k, s.code, code', s.pend, 0, r);
    forall i | 0 <= i < |code'|
      ensures InstrOk(code', s.pend, |s.k|, s.last, i)
    {
      assert InstrOk(s.code, s.pend, |s.k|, s.last, i);
    }
  }

  lemma MoreConstants(vm: Vm, s: State, k': seq<Value>, r: Regs)
    requires Wf(s) && s.k <= k'
    ensures Wf(s.(k := k'))
    ensures Reach(vm, s.(k := k'), r) == Reach(vm, s, r)
  {
    RunMoreK(vm, s.k, k', s.code, s.pend, s.last, 0, r);
    forall i | 0 <= i < |s.code|
      ensures InstrOk(s.code, s.pend, |k'|, s.last, i)
    {
      assert InstrOk(s.code, s.pend, |s.k|, s.last, i);
    }
  }

  /** The state before the last instructions, when nothing leads past them. */
  ghost function Before(s: State, n: int): State {
    s.(code := if 0 <= n <= |s.code| then s.code[..n] else s.code, pend := set p | p in s.pend && p < n)
  }

  lemma BeforeWf(s: State, n: nat)
    requires Wf(s) && s.jpc == [] && s.last <= n <= |s.code|
    requires n > 0 ==> !IsTest(s.code[n - 1])
    requires forall p :: p in s.pend && p >= n ==> p < |s.code|
    ensures Wf(Before(s, n))
  {
    var code' := s.code[..n];
    forall i | 0 <= i < n
      ensures InstrOk(code', Before(s, n).pend, |s.k|, s.last, i)
    {
      assert InstrOk(s.code, s.pend, |s.k|, s.last, i);
    }
  }

  ghost function Onwards(vm: Vm, s: State, n: nat, o: Outcome): Outcome {
    if o.Fall? then Run(vm, s.k, s.code, s.pend, n, o.r) else o
  }

  lemma BeforeReach(vm: Vm, s: State, n: nat, r: Regs)
    requires Wf(s) && s.jpc == [] && s.last <= n <= |s.code|
    requires n > 0 ==> !IsTest(s.code[n - 1])
    ensures Wf(Before(s, n))
    ensures Reach(vm, s, r) == Onwards(vm, s, n, Reach(vm, Before(s, n), r))
  {
    BeforeWf(s, n);
    var b := Before(s, n);
    assert s.code == s.code[..n] + s.code[n..];
    RunAppend(vm, s.k, b.code, b.pend, b.last, s.code[n..], s.pend, 0, r);
  }

  // ----- luaK_nil -----

  lemma {:induction false} SetNilGets(r: Regs, a: nat, b: nat, x: nat)
    ensures Get(SetNil(r, a, b), x) == if a <= x <= b then Nil else Get(r, x)
    decreases b - a
  {
    if a <= b {
      SetNilGets(r, a + 1, b, x);
    }
  }

  lemma LastNil(vm: Vm, s: State, a: nat, b: nat, r: Regs)
    requires s.code != [] && s.code[|s.code| - 1] == LoadNil(a, b)
    ensures Run(vm, s.k, s.code, s.pend, |s.code| - 1, r) == Fall(SetNil(r, a, b))
  {
    assert Run(vm, s.k, s.code, s.pend, |s.code|, SetNil(r, a, b)) == Fall(SetNil(r, a, b));
  }

  function Nilled(o: Outcome, a: nat, b: nat): Outcome {
    if o.Fall? then Fall(SetNil(o.r, a, b)) else o
  }

  lemma EndsWithNil(vm: Vm, s: State, a: nat, b: nat, r: Regs)
    requires Wf(s) && s.jpc == [] && s.last < |s.code| && s.code != [] && s.code[|s.code| - 1] == LoadNil(a, b)
    ensures Wf(Before(s, |s.code| - 1))
    ensures Reach(vm, s, r) == Nilled(Reach(vm, Before(s, |s.code| - 1), r), a, b)
  {
    var n := |s.code| - 1;
    if n > 0 {
      assert InstrOk(s.code, s.pend, |s.k|, s.last, n - 1);
    }
    BeforeReach(vm, s, n, r);
    forall r1
      ensures Run(vm, s.k, s.code, s.pend, n, r1) == Fall(SetNil(r1, a, b))
    {
      LastNil(vm, s, a, b, r1);
    }
  }

  ghost predicate WidenedRun(o: Outcome, o': Outcome, a: nat, b: nat, b': nat) {
    if o.Fall? then exists r0 :: o.r == SetNil(r0, a, b) && o' == Fall(SetNil(r0, a, b')) else o' == o
  }

  /** A LOADNIL at the end may be widened when no jump leads behind it. */
  lemma Widened(vm: Vm, s: State, s': State, a: nat, b: nat, b': nat, r: Regs)
    requires Wf(s) && s.jpc == [] && s.last < |s.code| && s.code != [] && s.code[|s.code| - 1] == LoadNil(a, b)
    requires s' == s.(code := s.code[|s.code| - 1 := LoadNil(a, b')])
    ensures Wf(s')
    ensures WidenedRun(Reach(vm, s, r), Reach(vm, s', r), a, b, b')
  {
    var n := |s.code| - 1;
    forall i | 0 <= i <= n
      ensures InstrOk(s'.code, s'.pend, |s.k|, s.last, i)
    {
      assert InstrOk(s.code, s.pend, |s.k|, s.last, i);
    }
    assert Before(s', n) == Before(s, n) by {
      assert s'.code[..n] == s.code[..n];
    }
    EndsWithNil(vm, s, a, b, r);
    EndsWithNil(vm, s', a, b', r);
  }
}
