/** The code generator of lcode.c for short-circuit expressions. */
module Code {
  import opened Wrappers
  import opened CodeVm
  import opened CodeState
  import opened CodeMeans
  import opened CodeLists
  import opened CodeStmts
  import opened Limits

  const NO_JUMP := -1
  const MAXARG_sBx := 131071
  const MAXARG_Bx := 262143
  const MAXINDEXRK := 255
  const MAXSTACK := 250

  class FuncState {
    const np: nat
    ghost const vm: Vm

    var k: seq<Value>
    var h: map<Value, nat>
    var code: seq<Instr>
    var jpc: int
    var lasttarget: int
    var freereg: nat
    var nactvar: nat
    var maxstacksize: nat
    ghost var pend: set<nat>
    ghost var jlist: seq<nat>

    ghost function St(): State
      reads `k, `code, `pend, `jlist, `lasttarget
    {
      State(k, code, pend, jlist, lasttarget)
    }

    /** Code, constants and the list of jumps to here are in order. */
    ghost predicate ValidCode()
      reads `k, `h, `code, `pend, `jlist, `lasttarget, `jpc
    {
      && Wf(St())
      && IsList(code, jpc, jlist)
      && (forall v :: v in h ==> h[v] < |k| && k[h[v]] == v)
    }

    ghost predicate Valid()
      reads this
    {
      && ValidCode()
      && np <= nactvar <= freereg <= maxstacksize < MAXSTACK
    }

    /** Why there is an error: the code is as long as it may be or longer than a
        jump reaches, the constants are as many as they may be, or `n` more
        registers are too many. */
    ghost predicate ExhaustedFor(st: Status, n: nat)
      reads `code, `k, `freereg
    {
      || (st == Error("code size overflow") && |code| >= 0x7FFF_FFFD)
      || (st == Error("control structure too long") && |code| > 131071)
      || (st == Error("constant table overflow") && |k| >= 262143)
      || (st == Error("function or expression too complex") && freereg + n >= 250)
    }

    /** Asking for more registers is no way to find room. */
    lemma MoreExhausted(st: Status, n: nat, m: nat)
      requires n <= m && ExhaustedFor(st, n)
      ensures ExhaustedFor(st, m)
    {
    }

    lemma OneExhausted(st: Status)
      ensures ExhaustedFor(st, 1) <==> Exhausted(st)
    {
    }

    lemma NilsExhausted(st: Status, n: nat)
      requires n > 0
      ensures st.Error? && Exhausted(st) ==> ExhaustedFor(st, n)
    {
    }

    ghost predicate Exhausted(st: Status)
      reads `code, `k, `freereg
    {
      ExhaustedFor(st, 1)
    }

    // ----- jump lists -----

    /** getjump: where the link in a pending jump leads. */
    function GetJump(pc: nat): int
      requires pc < |code| && code[pc].Jmp?
      reads `code
    {
      Link(code, pc)
    }

    method FixJump(pc: nat, dest: int) returns (st: Status)
      requires pc < |code| && code[pc].Jmp? && 0 <= dest <= |code|
      modifies `code
      ensures st.Okay? ==> code == old(code)[pc := Jmp(dest - (pc + 1))]
      ensures st.Error? ==> code == old(code) && !(-131071 <= dest - (pc + 1) <= 131071)
      ensures st.Error? ==> Exhausted(st)
    {
      var offset := dest - (pc + 1);
      if (if offset < 0 then -offset else offset) > MAXARG_sBx {
        return Error("control structure too long");
      }
      code := code[pc := Jmp(offset)];
      return Okay;
    }

    /** luaK_concat: the first list becomes the concatenation of both; only a
        link at its end may change. */
    method Concat(l1: int, l2: int, ghost a: seq<nat>, ghost b: seq<nat>) returns (st: Status, l: int)
      requires IsList(code, l1, a) && IsList(code, l2, b) && Distinct(a + b)
      modifies `code
      ensures st.Okay? ==> IsList(code, l, a + b)
      ensures st.Okay? ==> |code| == |old(code)| && Relinked(old(code), code, a)
      ensures st.Okay? && (a == [] || b == []) ==> code == old(code)
      ensures st.Error? ==> Exhausted(st)
    {
      if l2 == NO_JUMP {
        assert b == [] && a + b == a;
        return Okay, l1;
      } else if l1 == NO_JUMP {
        assert a == [] && a + b == b;
        return Okay, l2;
      }
      var list: nat := l1;
      ghost var i := 0;
      NextLink(code, l1, a, i);
      var next := GetJump(list);
      while next != NO_JUMP
        invariant code == old(code) && 0 <= i < |a| && list == a[i] && a[i] < |code| && code[a[i]].Jmp?
          && next == Link(code, a[i])
        decreases |a| - i
      {
        NextLink(code, l1, a, i);
        i := i + 1;
        list := next;
        NextLink(code, l1, a, i);
        next := GetJump(list);
      }
      NextLink(code, l1, a, i);
      NextLink(code, l2, b, 0);
      st := FixJump(list, l2);
      l := l1;
      if st.Okay? {
        Concatenated(old(code), code, l1, a, l2, b);
      }
    }

    /** need_value: whether some jump of the list brings no value. */
    method NeedValue(list: int, ghost l: seq<nat>) returns (r: bool)
      requires IsList(code, list, l)
      ensures r <==> exists p :: p in l && !Patchable(code, p)
    {
      var p := list;
      ghost var i := 0;
      while p != NO_JUMP
        invariant 0 <= i <= |l| && p == (if i < |l| then l[i] else NO_JUMP)
        invariant forall j :: 0 <= j < i ==> l[j] < |code| && Patchable(code, l[j])
        decreases |l| - i
      {
        NextLink(code, list, l, i);
        if !Patchable(code, p) {
          assert l[i] in l;
          return true;
        }
        p := GetJump(p);
        i := i + 1;
      }
      return false;
    }

    /** patchtestreg on the test that controls the jump `node`. */
    method PatchTestReg(node: nat, reg: nat) returns (patched: bool)
      requires node < |code|
      modifies `code
      ensures patched == Patchable(old(code), node)
      ensures code == if patched then old(code)[node - 1 := Patched(old(code)[node - 1], reg)] else old(code)
    {
      if node >= 1 && code[node - 1].TestSet? {
        var i := code[node - 1];
        if reg != NO_REG && reg != i.b {
          code := code[node - 1 := TestSet(reg, i.b, i.cond)];
        } else {
          code := code[node - 1 := Test(i.b, i.cond)];
        }
        return true;
      }
      return false;
    }

    method RemoveValues(list: int, ghost l: seq<nat>)
      requires IsList(code, list, l)
      modifies `code
      ensures code == WithoutValues(old(code), l)
    {
      var p := list;
      ghost var i := 0;
      while p != NO_JUMP
        invariant 0 <= i <= |l| && p == (if i < |l| then l[i] else NO_JUMP)
        invariant IsList(code, list, l)
        invariant WithoutValues(code, l[i..]) == WithoutValues(old(code), l)
        decreases |l| - i
      {
        ghost var c := code;
        NextLink(code, list, l, i);
        var _ := PatchTestReg(p, NO_REG);
        assert l[i..][0] == l[i] && l[i..][1..] == l[i + 1..];
        KeepsList(c, code, list, l);
        NextLink(code, list, l, i);
        p := GetJump(p);
        i := i + 1;
      }
      assert l[i..] == [];
    }

    /** patchlistaux: jumps with a value go to `vtarget`, others to `dtarget`. */
    method PatchListAux(list: int, ghost l: seq<nat>, vtarget: int, reg: nat, dtarget: int) returns (st: Status)
      requires IsList(code, list, l)
      requires forall p :: p in l ==> 0 <= JumpTarget(code, p, vtarget, dtarget) <= |code|
      modifies `code
      ensures st.Okay? ==> code == PatchAll(old(code), l, reg, vtarget, dtarget)
      ensures st.Error? ==> Exhausted(st)
    {
      var p := list;
      ghost var i := 0;
      assert l[i..] == l;
      forall j | 0 <= j < |l|
        ensures SameJump(old(code), code, l[j])
      {
        NextLink(code, list, l, j);
      }
      while p != NO_JUMP
        invariant 0 <= i <= |l| && p == (if i < |l| then l[i] else NO_JUMP)
        invariant |code| == |old(code)|
        invariant PatchAll(code, l[i..], reg, vtarget, dtarget) == PatchAll(old(code), l, reg, vtarget, dtarget)
        invariant forall j :: i <= j < |l| ==> SameJump(old(code), code, l[j])
        decreases |l| - i
      {
        ghost var c := code;
        NextLink(old(code), list, l, i);
        assert SameJump(old(code), code, l[i]);
        RestOfList(old(code), list, l, c, i, reg, vtarget, dtarget);
        assert l[i..][0] == l[i] && l[i..][1..] == l[i + 1..];
        var next := GetJump(p);
        var patched := PatchTestReg(p, reg);
        if patched {
          st := FixJump(p, vtarget);
        } else {
          st := FixJump(p, dtarget);
        }
        if st.Error? {
          return;
        }
        assert code == PatchJump(c, l[i], reg, vtarget, dtarget);
        p := next;
        i := i + 1;
      }
      assert l[i..] == [];
      return Okay;
    }

    method DischargeJpc() returns (st: Status)
      requires IsList(code, jpc, jlist)
      modifies `code, `jpc, `jlist, `pend
      ensures st.Okay? ==> St() == Discharge(old(St())) && jpc == NO_JUMP
      ensures st.Error? ==> Exhausted(st)
    {
      st := PatchListAux(jpc, jlist, |code|, NO_REG, |code|);
      if st.Okay? {
        jpc := NO_JUMP;
        pend := pend - SetOf(jlist);
        jlist := [];
      }
    }

    /** luaK_code: jumps to here get their target, then the instruction follows. */
    method CodeInstr(i: Instr) returns (st: Status)
      requires IsList(code, jpc, jlist)
      modifies `code, `jpc, `jlist, `pend
      ensures st.Okay? ==> St() == Emit(old(St()), i) && jpc == NO_JUMP
      ensures st.Error? ==> Exhausted(st)
    {
      st := DischargeJpc();
      if st.Okay? {
        if |code| >= MAX_INT {
          return Error("code size overflow");
        }
        code := code + [i];
      }
    }

    /** luaK_jump: the jumps to here are kept on hold, in the list of the new one. */
    method Jump() returns (st: Status, j: int, ghost l: seq<nat>)
      requires IsList(code, jpc, jlist)
      modifies `code, `jpc, `jlist, `pend
      ensures st.Okay? ==> l == [|old(code)|] + old(jlist) && IsList(code, j, l)
      ensures st.Okay? ==> |code| == |old(code)| + 1 && code[|old(code)|].Jmp? && code[..|old(code)|] == old(code)
      ensures st.Okay? ==> pend == old(pend) + {|old(code)|} && jlist == [] && jpc == NO_JUMP
      ensures st.Okay? && old(jlist) == [] ==> code == old(code) + [Jmp(-1)] && j == |old(code)|
      ensures st.Error? ==> Exhausted(st)
    {
      var saved := jpc;
      ghost var waiting := jlist;
      jpc, jlist := NO_JUMP, [];
      if |code| >= MAX_INT {
        return Error("code size overflow"), NO_JUMP, [];
      }
      j := |code|;
      ghost var was := code;
      code := code + [Jmp(NO_JUMP)];
      pend := pend + {j};
      l := [j] + waiting;
      OneJump(was);
      KeepsList(was, code, saved, waiting);
      assert j !in waiting;
      ghost var linked := code;
      st, j := Concat(j, saved, [j], waiting);
      if st.Okay? {
        assert forall i :: 0 <= i < |was| ==> code[i] == linked[i] == was[i];
        assert waiting == [] ==> [j] + waiting == [j];
      }
    }

    /** condjump. */
    method CondJump(i: Instr) returns (st: Status, j: int)
      requires ValidCode() && IsTest(i) && (i.TestSet? ==> i.a == NO_REG)
      requires i.Compare? ==> OperandOk(|k|, i.b) && OperandOk(|k|, i.c)
      modifies `code, `jpc, `jlist, `pend
      ensures st.Okay? ==> ValidCode() && St() == EmitTest(old(St()), i) && jpc == NO_JUMP
      ensures st.Okay? ==> j == |code| - 1 && IsList(code, j, [j])
      ensures st.Error? ==> Exhausted(st)
    {
      ghost var s := St();
      Tested(Anything(), s, i, map[]);
      Discharged(Anything(), s, map[]);
      st := CodeInstr(i);
      j := NO_JUMP;
      if st.Okay? {
        ghost var l;
        st, j, l := Jump();
        if st.Okay? {
          assert code == Discharge(s).code + [i, Jmp(-1)] && l == [|s.code| + 1];
        }
      }
    }

    method GetLabel() returns (pc: nat)
      modifies `lasttarget
      ensures lasttarget == |code| && pc == |code|
    {
      lasttarget := |code|;
      return |code|;
    }

    /** luaK_patchtohere. */
    method PatchToHere(list: int, ghost l: seq<nat>) returns (st: Status)
      requires IsList(code, jpc, jlist) && IsList(code, list, l) && Distinct(jlist + l)
      modifies `code, `jpc, `jlist, `lasttarget
      ensures st.Okay? ==> St() == ToHere(old(St()), l).(code := code) && Relinked(old(code), code, old(jlist))
      ensures st.Okay? ==> IsList(code, jpc, jlist)
      ensures st.Okay? && (old(jlist) == [] || l == []) ==> code == old(code)
      ensures st.Error? ==> Exhausted(st)
    {
      var _ := GetLabel();
      st, jpc := Concat(jpc, list, jlist, l);
      jlist := jlist + l;
    }

    // ----- registers -----

    method CheckStack(n: nat) returns (st: Status)
      requires freereg <= maxstacksize < MAXSTACK
      modifies `maxstacksize
      ensures st.Okay? ==> old(maxstacksize) <= maxstacksize < 250 && freereg + n <= maxstacksize
      ensures st.Error? ==> ExhaustedFor(st, n)
    {
      var newstack := freereg + n;
      if newstack > maxstacksize {
        if newstack >= MAXSTACK {
          return Error("function or expression too complex");
        }
        maxstacksize := newstack;
      }
      return Okay;
    }

    method ReserveRegs(n: nat) returns (st: Status)
      requires freereg <= maxstacksize < MAXSTACK
      modifies `maxstacksize, `freereg
      ensures st.Okay? ==> freereg == old(freereg) + n && freereg <= maxstacksize < MAXSTACK
      ensures st.Error? ==> ExhaustedFor(st, n)
    {
      st := CheckStack(n);
      if st.Okay? {
        freereg := freereg + n;
      }
    }

    /** Only the last register may be freed; locals and constants are not. */
    method FreeReg(reg: nat)
      requires !IsK(reg) && reg >= nactvar ==> reg + 1 == freereg
      modifies `freereg
      ensures freereg == if !IsK(reg) && reg >= nactvar then old(freereg) - 1 else old(freereg)
    {
      if !IsK(reg) && reg >= nactvar {
        freereg := freereg - 1;
      }
    }

    method FreeExp(d: Desc)
      requires d.kind.VNonReloc? && !IsK(d.kind.info) && d.kind.info >= nactvar ==> d.kind.info + 1 == freereg
      modifies `freereg
      ensures freereg ==
        if d.kind.VNonReloc? && !IsK(d.kind.info) && d.kind.info >= nactvar then old(freereg) - 1 else old(freereg)
    {
      if d.kind.VNonReloc? {
        FreeReg(d.kind.info);
      }
    }

    // ----- constants -----

    /** addk: the index of a constant, which is added when it is new. */
    method AddK(v: Value) returns (st: Status, idx: nat)
      requires ValidCode()
      modifies `k, `h
      ensures st.Okay? ==> ValidCode() && old(k) <= k && idx < |k| && k[idx] == v && idx <= |old(k)|
      ensures st.Error? ==> Exhausted(st)
    {
      if v in h {
        return Okay, h[v];
      }
      if |k| >= MAXARG_Bx {
        return Error("constant table overflow"), 0;
      }
      MoreConstants(Anything(), St(), k + [v], map[]);
      idx := |k|;
      h := h[v := idx];
      k := k + [v];
      return Okay, idx;
    }

    // ----- a value in a register -----

    /** luaK_nil. */
    method LoadNilRegs(from: nat, n: nat) returns (st: Status)
      requires ValidCode() && np <= nactvar && n > 0
      modifies `code, `jpc, `jlist, `pend
      ensures st.Okay? ==> ValidCode() && Nils(vm, np, old(St()), St(), from, n) && Extends(old(St()), St(), {})
      ensures st.Error? ==> Exhausted(st)
    {
      ghost var s := St();
      if |code| > lasttarget {
        if code == [] {
          if from >= nactvar {
            CleanNils(vm, np, s, from, n);
            ExtendsSelf(s);
            return Okay;
          }
        } else if code[|code| - 1].LoadNil? {
          var pfrom, pto := code[|code| - 1].a, code[|code| - 1].b;
          if pfrom <= from <= pto + 1 {
            WideNils(vm, np, s, pfrom, pto, from, n);
            if from + n - 1 > pto {
              code := code[|code| - 1 := LoadNil(pfrom, from + n - 1)];
              assert jlist == [] && IsList(code, jpc, jlist);
            }
            return Okay;
          }
        }
      }
      EmitNils(vm, np, s, from, n);
      EmitExtends(s, LoadNil(from, from + n - 1));
      st := CodeInstr(LoadNil(from, from + n - 1));
    }

    /** One instruction that loads a value. */
    method LoadBy(ghost kind: Kind, reg: nat, i: Instr) returns (st: Status)
      requires ValidCode()
      requires match kind
        case VTrue => i == LoadBool(reg, true, false)
        case VFalse => i == LoadBool(reg, false, false)
        case VK(idx) => i == LoadK(reg, idx) && idx < |k|
        case VNonReloc(src) => i == Move(reg, src)
        case _ => false
      modifies `code, `jpc, `jlist, `pend
      ensures st.Okay? ==> ValidCode() && Loads(vm, np, old(St()), kind, St(), reg) && Extends(old(St()), St(), {})
      ensures st.Error? ==> Exhausted(st)
    {
      EmitLoads(vm, np, St(), kind, reg, i);
      EmitExtends(St(), i);
      st := CodeInstr(i);
    }

    method LoadNumber(n: int, reg: nat) returns (st: Status)
      requires ValidCode()
      modifies `code, `jpc, `jlist, `pend, `k, `h
      ensures st.Okay? ==> ValidCode() && Loads(vm, np, old(St()), VKNum(n), St(), reg) && Extends(old(St()), St(), {})
      ensures st.Error? ==> Exhausted(st)
    {
      ghost var s := St();
      var idx;
      st, idx := AddK(Number(n));
      if st.Okay? {
        ghost var s1 := St();
        assert s1 == s.(k := k);
        MoreKExtends(s, k);
        EmitLoads(vm, np, s1, VKNum(n), reg, LoadK(reg, idx));
        EmitExtends(s1, LoadK(reg, idx));
        st := CodeInstr(LoadK(reg, idx));
        if st.Okay? {
          LoadsMoreK(vm, np, s, s1.k, VKNum(n), St(), reg);
          ExtendsOn(s, s1, {}, St(), {});
          NoOwn({});
        }
      }
    }

    lemma NoOwn(own: set<nat>)
      ensures own + {} == own
    {
    }

    method MoveTo(src: nat, reg: nat) returns (st: Status)
      requires ValidCode()
      modifies `code, `jpc, `jlist, `pend
      ensures st.Okay? ==>
        ValidCode() && Loads(vm, np, old(St()), VNonReloc(src), St(), reg) && Extends(old(St()), St(), {})
      ensures st.Error? ==> Exhausted(st)
    {
      if reg != src {
        st := LoadBy(VNonReloc(src), reg, Move(reg, src));
      } else {
        StaysLoaded(vm, np, St(), reg);
        ExtendsSelf(St());
        return Okay;
      }
    }

    /** The instruction at the end gets its register. */
    method SetRegister(pc: nat, reg: nat)
      requires ValidCode() && pc + 1 == |code| && code[pc].Not? && jlist == [] && lasttarget <= pc
      modifies `code
      ensures ValidCode() && Loads(vm, np, old(St()), VReloc(pc), St(), reg) && Extends(old(St()), St(), {})
    {
      RelocLoads(vm, np, St(), code[pc].b, reg, code[pc].a);
      code := code[pc := Not(reg, code[pc].b)];
      assert IsList(code, jpc, jlist);
    }

    /** discharge2reg: the value of an expression, jumps aside, goes to `reg`. */
    method Discharge2Reg(d: Desc, reg: nat, ghost t: seq<nat>, ghost f: seq<nat>) returns (st: Status, d': Desc)
      requires ValidCode() && np <= nactvar && JumpsOk(St(), d, t, f)
      modifies `code, `jpc, `jlist, `pend, `k, `h
      ensures st.Okay? && d.kind.VJmp? ==> d' == d && ValidCode() && St() == old(St())
      ensures st.Okay? && !d.kind.VJmp? ==>
        ValidCode() && d' == Desc(VNonReloc(reg), d.t, d.f) && JumpsOk(St(), d', t, f)
      ensures st.Okay? && !d.kind.VJmp? ==> Loads(vm, np, old(St()), d.kind, St(), reg) && Extends(old(St()), St(), {})
      ensures st.Okay? && !d.kind.VJmp? ==> SameControls(old(code), code, t) && SameControls(old(code), code, f)
      ensures st.Error? ==> Exhausted(st)
    {
      hide *;
      ghost var s := St();
      StIs();
      TailFacts(s, d, t, f);
      match d.kind {
      case VJmp(_) =>
        return Okay, d;
      case VNil =>
        st := LoadNilRegs(reg, 1);
        if st.Okay? {
          NilsLoad(vm, np, s, St(), reg);
        }
      case VTrue =>
        st := LoadBy(d.kind, reg, LoadBool(reg, true, false));
      case VFalse =>
        st := LoadBy(d.kind, reg, LoadBool(reg, false, false));
      case VK(i) =>
        st := LoadBy(d.kind, reg, LoadK(reg, i));
      case VKNum(n) =>
        st := LoadNumber(n, reg);
      case VReloc(pc) =>
        SetRegister(pc, reg);
        st := Okay;
      case VLocal(i) =>
        st := MoveTo(i, reg);
        if st.Okay? {
          LocalLoads(vm, np, s, i, St(), reg);
        }
      case VNonReloc(i) =>
        st := MoveTo(i, reg);
      }
      d' := Desc(VNonReloc(reg), d.t, d.f);
      if st.Okay? {
        JumpsOn(s, d, t, f, St(), {}, VNonReloc(reg));
        StIs();
      }
    }

    lemma StIs()
      ensures St() == State(k, code, pend, jlist, lasttarget)
    {
    }

    /** code_label: these loads may be jump targets. */
    method CodeLabel(reg: nat, v: bool, skip: bool) returns (st: Status, pc: nat)
      requires jlist == [] && jpc == NO_JUMP
      modifies `code, `jpc, `jlist, `pend, `lasttarget
      ensures st.Okay? ==> code == old(code) + [LoadBool(reg, v, skip)] && pc == |old(code)| && lasttarget == pc
      ensures st.Okay? ==> pend == old(pend) && jlist == [] && jpc == NO_JUMP
      ensures st.Error? ==> Exhausted(st)
    {
      pc := GetLabel();
      assert pend - SetOf(jlist) == pend;
      st := CodeInstr(LoadBool(reg, v, skip));
    }

    /** The two loads, jumped over by who has the value in the register already. */
    method LoadBoolsAround(reg: nat) returns (st: Status, pf: nat, pt: nat)
      requires ValidCode()
      modifies `code, `jpc, `jlist, `pend, `lasttarget
      ensures st.Okay? ==> ValidCode() && pf == |old(code)| + 1 && pt == |old(code)| + 2
      ensures st.Okay? ==> St() == BoolsAround(old(St()), reg).(code := code)
      ensures st.Okay? ==> Relinked(BoolsAround(old(St()), reg).code, code, [|old(code)|] + old(jlist))
      ensures st.Error? ==> Exhausted(st)
    {
      ghost var s := St();
      ghost var c, n := code, |code|;
      pf, pt := 0, 0;
      var j: int;
      ghost var l;
      st, j, l := Jump();
      if st.Okay? {
        ghost var c1 := code;
        st, pf := CodeLabel(reg, false, true);
        if st.Okay? {
          st, pt := CodeLabel(reg, true, false);
          if st.Okay? {
            assert code == c1 + [LoadBool(reg, false, true), LoadBool(reg, true, false)];
            KeepsList(c1, code, j, l);
            assert [] + l == l;
            st := PatchToHere(j, l);
            if st.Okay? {
              AroundLinks(s, reg, c1, code);
            }
          }
        }
      }
    }

    method LoadBoolsAfter(reg: nat) returns (st: Status, pf: nat, pt: nat)
      requires ValidCode() && jlist == []
      modifies `code, `jpc, `jlist, `pend, `lasttarget
      ensures st.Okay? ==> ValidCode() && pf == |old(code)| && pt == |old(code)| + 1
      ensures st.Okay? ==> St() == BoolsAfter(old(St()), reg)
      ensures st.Error? ==> Exhausted(st)
    {
      ghost var s := St();
      After(vm, s, reg, map[]);
      pt := 0;
      st, pf := CodeLabel(reg, false, true);
      if st.Okay? {
        st, pt := CodeLabel(reg, true, false);
        if st.Okay? {
          assert code == s.code + [LoadBool(reg, false, true), LoadBool(reg, true, false)];
          assert IsList(code, NO_JUMP, []);
          st := PatchToHere(NO_JUMP, []);
        }
      }
    }

    // ----- exp2reg -----

    /** The code for `e`, generated since `s0`, is described by `d`. */
    ghost predicate CompiledCode(s0: State, n0: nat, d: Desc, t: seq<nat>, f: seq<nat>, e: Expr)
      reads `k, `h, `code, `pend, `jlist, `lasttarget, `jpc, `nactvar
    {
      true <==> (
        && ValidCode() && np <= nactvar && Wf(s0)
        && JumpsOk(St(), d, t, f)
        && Means(vm, np, s0, St(), d.kind, t, f, n0, e)
        && Extends(s0, St(), Own(d.kind, t, f))
        && |s0.code| <= |Body(St(), d.kind).code|
      )
    }

    /** Both lists of jumps are sent to the end of the code, or to the loads of
        the booleans before it. */
    method PatchFinal(d: Desc, ghost t: seq<nat>, ghost f: seq<nat>, reg: nat, pf: int, pt: int) returns (st: Status)
      requires ValidCode() && IsList(code, d.t, t) && IsList(code, d.f, f)
      requires forall p :: p in t || p in f ==> p in pend && p !in jlist
      requires forall p :: p in t ==> p !in f
      requires Loaders(code, t, f, reg, pf, pt)
      modifies `code, `pend, `lasttarget
      ensures st.Okay? ==> ValidCode() && St() == Final(old(St()), t, f, reg, pf, pt)
      ensures st.Error? ==> Exhausted(st)
    {
      ghost var s := St();
      FinalReach(vm, s, t, f, reg, pf, pt, map[]);
      FinalLists(s, d, t, f, reg, pf, pt, jpc);
      var final := GetLabel();
      st := PatchListAux(d.f, f, final, reg, pf);
      if st.Okay? {
        pend := pend - SetOf(f);
        st := PatchListAux(d.t, t, final, reg, pt);
        if st.Okay? {
          pend := pend - SetOf(t);
        }
      }
    }

    /** What the predicate says, piece by piece. */
    lemma CompiledFacts(s0: State, n0: nat, d: Desc, t: seq<nat>, f: seq<nat>, e: Expr)
      requires CompiledCode(s0, n0, d, t, f, e)
      ensures ValidCode() && np <= nactvar && Wf(s0)
      ensures JumpsOk(St(), d, t, f)
      ensures Means(vm, np, s0, St(), d.kind, t, f, n0, e)
      ensures Extends(s0, St(), Own(d.kind, t, f))
      ensures |s0.code| <= |Body(St(), d.kind).code|
    {
    }

    lemma ValidFacts()
      requires ValidCode()
      ensures Wf(St()) && IsList(code, jpc, jlist)
    {
    }

    /** exp2reg for a value that is no comparison. */
    method ValueToReg(d: Desc, reg: nat, ghost t: seq<nat>, ghost f: seq<nat>, ghost s0: State, ghost n0: nat,
        ghost e: Expr)
      returns (st: Status)
      requires CompiledCode(s0, n0, d, t, f, e) && !d.kind.VJmp? && reg < MAXSTACK
      modifies `code, `jpc, `jlist, `pend, `k, `h, `lasttarget
      ensures st.Okay? ==> ValidCode() && Computes(vm, np, s0, St(), reg, n0, e) && Extends(s0, St(), {})
      ensures st.Error? ==> Exhausted(st)
    {
      hide *;
      CompiledFacts(s0, n0, d, t, f, e);
      StIs();
      ghost var s := St();
      var d1;
      st, d1 := Discharge2Reg(d, reg, t, f);
      if st.Okay? {
        NoJumps(St(), d1, t, f);
        ExtendsOn(s0, s, Own(d.kind, t, f), St(), {});
        OwnLists(d.kind, t, f);
        if d1.t == d1.f {
          PlainComputes(vm, np, s0, s, d.kind, n0, e, St(), reg);
          SetOfNone(t, f);
        } else {
          st := FinishValue(d1, reg, t, f, s, d.kind, s0, n0, e);
        }
      }
    }

    method FinishValue(d: Desc, reg: nat, ghost t: seq<nat>, ghost f: seq<nat>, ghost s: State, ghost kind: Kind,
                       ghost s0: State, ghost n0: nat, ghost e: Expr)
      returns (st: Status)
      requires ValidCode() && Wf(s0) && reg < MAXSTACK && d.kind == VNonReloc(reg) && JumpsOk(St(), d, t, f)
      requires Means(vm, np, s0, s, kind, t, f, n0, e) && Loads(vm, np, s, kind, St(), reg)
      requires SameControls(s.code, code, t) && SameControls(s.code, code, f)
      requires Extends(s0, St(), SetOf(t) + SetOf(f))
      modifies `code, `jpc, `jlist, `pend, `lasttarget
      ensures st.Okay? ==> ValidCode() && Computes(vm, np, s0, St(), reg, n0, e) && Extends(s0, St(), {})
      ensures st.Error? ==> Exhausted(st)
    {
      assert reg != NO_REG;
      hide *;
      StIs();
      ghost var s1 := St();
      var pf, pt;
      st, pf, pt := LoadBools(d, reg, t, f, s0);
      if st.Okay? {
        SameTrans(s.code, s1.code, code, t);
        SameTrans(s.code, s1.code, code, f);
        st := FinishLists(d, reg, pf, pt, t, f, s, kind, s1, s0, n0, e);
      }
    }

    /** The loads of the booleans, when some jump brings no value. */
    method LoadBools(d: Desc, reg: nat, ghost t: seq<nat>, ghost f: seq<nat>, ghost s0: State)
      returns (st: Status, pf: int, pt: int)
      requires ValidCode() && Wf(s0) && d.kind == VNonReloc(reg) && JumpsOk(St(), d, t, f)
      requires Extends(s0, St(), SetOf(t) + SetOf(f))
      modifies `code, `jpc, `jlist, `pend, `lasttarget
      ensures st.Okay? ==> ValidCode() && JumpsOk(St(), d, t, f) && Loaders(code, t, f, reg, pf, pt)
      ensures st.Okay? ==>
        Extends(s0, St(), SetOf(t) + SetOf(f)) && forall r :: Reach(vm, St(), r) == Reach(vm, old(St()), r)
      ensures st.Okay? ==> SameControls(old(code), code, t) && SameControls(old(code), code, f)
      ensures st.Error? ==> Exhausted(st)
    {
      hide *;
      StIs();
      ValidFacts();
      ghost var s1 := St();
      JumpsFacts(s1, d, t, f);
      pf, pt := NO_JUMP, NO_JUMP;
      NoJumpIs();
      var need := NeedValue(d.t, t);
      if !need {
        need := NeedValue(d.f, f);
      }
      if need {
        st, pf, pt := LoadBoolsAround(reg);
        if st.Okay? {
          StIs();
          AroundJumps(s0, s1, d, t, f, reg, code);
        }
      } else {
        st := Okay;
        AllPatchable(code, t, f, reg);
        ControlsSame(code, t, f);
      }
    }

    lemma NoJumpIs()
      ensures NO_JUMP == -1
    {
    }

    /** The last patches of an expression whose value is loaded. */
    method FinishLists(d: Desc, reg: nat, pf: int, pt: int, ghost t: seq<nat>, ghost f: seq<nat>, ghost s: State,
        ghost kind: Kind,
                       ghost s1: State, ghost s0: State, ghost n0: nat, ghost e: Expr)
      returns (st: Status)
      requires ValidCode() && Wf(s0) && reg != NO_REG && JumpsOk(St(), d, t, f)
      requires Means(vm, np, s0, s, kind, t, f, n0, e) && Loads(vm, np, s, kind, s1, reg)
      requires forall r :: Reach(vm, St(), r) == Reach(vm, s1, r)
      requires SameControls(s.code, code, t) && SameControls(s.code, code, f)
      requires Loaders(code, t, f, reg, pf, pt)
      requires Extends(s0, St(), SetOf(t) + SetOf(f))
      modifies `code, `pend, `lasttarget
      ensures st.Okay? ==> ValidCode() && Computes(vm, np, s0, St(), reg, n0, e) && Extends(s0, St(), {})
      ensures st.Error? ==> Exhausted(st)
    {
      hide *;
      StIs();
      ValidFacts();
      ghost var s2 := St();
      JumpsFacts(s2, d, t, f);
      ExitsNotIn(vm, np, s0, s2, t, f);
      FinalComputes(vm, np, s0, s, kind, t, f, n0, e, s1, s2, reg, pf, pt);
      FinalExtends(s0, s2, SetOf(t) + SetOf(f), t, f, reg, pf, pt);
      st := PatchFinal(d, t, f, reg, pf, pt);
    }

    /** exp2reg for a comparison: its jump brings true, what falls through is false. */
    method CompareToReg(d: Desc, reg: nat, ghost t: seq<nat>, ghost f: seq<nat>, ghost s0: State, ghost n0: nat,
        ghost e: Expr)
      returns (st: Status)
      requires CompiledCode(s0, n0, d, t, f, e) && d.kind.VJmp? && reg < MAXSTACK
      modifies `code, `jpc, `jlist, `pend, `lasttarget
      ensures st.Okay? ==> ValidCode() && Computes(vm, np, s0, St(), reg, n0, e) && Extends(s0, St(), {})
      ensures st.Error? ==> Exhausted(st)
    {
      assert reg != NO_REG;
      hide *;
      CompiledFacts(s0, n0, d, t, f, e);
      StIs();
      ValidFacts();
      ghost var s := St();
      OwnJump(s, d, t, f);
      JumpsFacts(s, d, t, f);
      var p := d.kind.info;
      var tl;
      st, tl := Concat(d.t, p, t, [p]);
      if st.Okay? {
        CompareReady(vm, np, s0, s, d, t, f, n0, e, code);
        RelinkedValid(s);
        st := FinishCompare(d, tl, reg, t, f, s0, n0, e);
      }
    }

    lemma RelinkedValid(s: State)
      requires s == State(k, s.code, pend, jlist, lasttarget) && Wf(St()) && jlist == []
      requires IsList(s.code, jpc, jlist)
      requires forall v :: v in h ==> h[v] < |k| && k[h[v]] == v
      ensures ValidCode()
    {
      assert IsList(code, jpc, jlist);
    }

    method FinishCompare(d: Desc, tl: int, reg: nat, ghost t: seq<nat>, ghost f: seq<nat>, ghost s0: State,
        ghost n0: nat, ghost e: Expr)
      returns (st: Status)
      requires ValidCode() && Wf(s0) && reg != NO_REG && d.kind.VJmp? && jlist == []
      requires 0 < d.kind.info < |code| && code[d.kind.info - 1].Compare?
      requires Means(vm, np, s0, St(), d.kind, t, f, n0, e) && Jumps(vm, np, St(), d.kind, St(), d.kind.info, true)
      requires IsList(code, tl, t + [d.kind.info]) && IsList(code, d.f, f)
      requires forall q :: q in t + [d.kind.info] ==> q !in f
      requires Extends(s0, St(), SetOf(t + [d.kind.info]) + SetOf(f))
      modifies `code, `jpc, `jlist, `pend, `lasttarget
      ensures st.Okay? ==> ValidCode() && Computes(vm, np, s0, St(), reg, n0, e) && Extends(s0, St(), {})
      ensures st.Error? ==> Exhausted(st)
    {
      hide *;
      StIs();
      ValidFacts();
      ghost var s := St();
      ghost var p := d.kind.info;
      ghost var l := t + [p];
      ExitsNotIn(vm, np, s0, s, l, f);
      OwnPending(s0, s, l, f);
      var need := NeedValue(tl, l);
      CompareNeeds(code, tl, t, d.f, f, p);
      assert tl != d.f && need;
      var pf, pt;
      st, pf, pt := LoadBoolsAfter(reg);
      if st.Okay? {
        FinalCompare(vm, np, s0, s, p, t, f, n0, e, reg);
        AfterReady(s0, s, tl, l, d.f, f, reg);
        FinalExtends(s0, St(), SetOf(l) + SetOf(f), l, f, reg, pf, pt);
        StIs();
        st := PatchFinal(d.(t := tl), l, f, reg, pf, pt);
      }
    }

    /** exp2reg. */
    method Exp2Reg(d: Desc, reg: nat, ghost t: seq<nat>, ghost f: seq<nat>, ghost s0: State, ghost n0: nat,
        ghost e: Expr)
      returns (st: Status, d': Desc)
      requires CompiledCode(s0, n0, d, t, f, e) && reg < MAXSTACK
      modifies `code, `jpc, `jlist, `pend, `k, `h, `lasttarget
      ensures st.Okay? ==> ValidCode() && Computes(vm, np, s0, St(), reg, n0, e) && Extends(s0, St(), {})
      ensures d' == Desc(VNonReloc(reg), NO_JUMP, NO_JUMP)
      ensures st.Error? ==> Exhausted(st)
    {
      if d.kind.VJmp? {
        st := CompareToReg(d, reg, t, f, s0, n0, e);
      } else {
        st := ValueToReg(d, reg, t, f, s0, n0, e);
      }
      d' := Desc(VNonReloc(reg), NO_JUMP, NO_JUMP);
    }

    /** How many registers a descriptor uses: its value is in a local, in the
        next register, or in none. */
    ghost predicate RegsOk(kind: Kind, n0: nat)
      reads `nactvar, `freereg
    {
      match kind
      case VLocal(i) => i < nactvar && freereg == n0
      case VNonReloc(i) => (i < nactvar && freereg == n0) || (i == n0 && freereg == n0 + 1)
      case _ => freereg == n0
    }

    /** The code for `e` is described by `d`, and so are the registers. */
    ghost predicate Compiled(s0: State, n0: nat, d: Desc, t: seq<nat>, f: seq<nat>, e: Expr)
      reads this
    {
      && CompiledCode(s0, n0, d, t, f, e)
      && np <= nactvar <= n0 && freereg <= maxstacksize < MAXSTACK
      && RegsOk(d.kind, n0)
    }

    /** Every operation that describes an expression keeps each pending jump in
        exactly one list. */
    lemma JumpsConserved(s0: State, n0: nat, d: Desc, t: seq<nat>, f: seq<nat>, e: Expr)
      requires Compiled(s0, n0, d, t, f, e)
      ensures forall p: nat :: Places(s0, St(), d.kind, t, f, p) == if p in St().pend then 1 else 0
      ensures Distinct(t) && Distinct(f) && Distinct(jlist)
    {
      StIs();
      hide *;
      CompiledParts(s0, n0, d, t, f, e);
      CompiledFacts(s0, n0, d, t, f, e);
      ValidFacts();
      PendingOnce(s0, St(), d, t, f);
    }

    function DischargedVars(d: Desc): Desc {
      if d.kind.VLocal? then d.(kind := VNonReloc(d.kind.info)) else d
    }

    lemma VarsCompiled(s0: State, n0: nat, d: Desc, t: seq<nat>, f: seq<nat>, e: Expr)
      requires Compiled(s0, n0, d, t, f, e)
      ensures Compiled(s0, n0, DischargedVars(d), t, f, e)
    {
      if d.kind.VLocal? {
        LocalMeans(vm, np, s0, St(), d.kind.info, t, f, n0, e);
        LocalJumps(St(), d, t, f);
      }
    }

    lemma CompiledParts(s0: State, n0: nat, d: Desc, t: seq<nat>, f: seq<nat>, e: Expr)
      requires Compiled(s0, n0, d, t, f, e)
      ensures CompiledCode(s0, n0, d, t, f, e) && RegsOk(d.kind, n0)
      ensures np <= nactvar <= n0 && freereg <= maxstacksize < MAXSTACK && n0 <= freereg
      ensures d.kind.VNonReloc? ==> (d.kind.info < nactvar && freereg == n0) || (d.kind.info == n0 && freereg == n0 + 1)
      ensures !d.kind.VNonReloc? ==> freereg == n0
      ensures d.kind.VNonReloc? ==> !IsK(d.kind.info)
    {
    }

    /** luaK_exp2nextreg. */
    method Exp2NextReg(d: Desc, ghost t: seq<nat>, ghost f: seq<nat>, ghost s0: State, ghost n0: nat, ghost e: Expr)
      returns (st: Status, d': Desc)
      requires Compiled(s0, n0, d, t, f, e)
      modifies `code, `jpc, `jlist, `pend, `k, `h, `lasttarget, `freereg, `maxstacksize
      ensures st.Okay? ==> ValidCode() && Computes(vm, np, s0, St(), n0, n0, e) && Extends(s0, St(), {})
      ensures st.Okay? ==> freereg == n0 + 1 && freereg <= maxstacksize < MAXSTACK
      ensures d' == Desc(VNonReloc(n0), NO_JUMP, NO_JUMP) || st.Error?
      ensures st.Error? ==> Exhausted(st)
    {
      hide *;
      VarsCompiled(s0, n0, d, t, f, e);
      d' := DischargedVars(d);
      VarsAre(d);
      CompiledParts(s0, n0, d', t, f, e);
      FreeExp(d');
      st := ReserveRegs(1);
      OneExhausted(st);
      if st.Okay? {
        st, d' := Exp2Reg(d', freereg - 1, t, f, s0, n0, e);
      }
    }

    lemma VarsAre(d: Desc)
      ensures DischargedVars(d) == if d.kind.VLocal? then d.(kind := VNonReloc(d.kind.info)) else d
    {
    }

    /** luaK_exp2anyreg: an expression without jumps stays in its register. */
    method Exp2AnyReg(d: Desc, ghost t: seq<nat>, ghost f: seq<nat>, ghost s0: State, ghost n0: nat, ghost e: Expr)
      returns (st: Status, d': Desc, reg: nat)
      requires Compiled(s0, n0, d, t, f, e)
      modifies `code, `jpc, `jlist, `pend, `k, `h, `lasttarget, `freereg, `maxstacksize
      ensures st.Okay? ==> ValidCode() && Provides(vm, np, s0, St(), reg, n0, e) && Extends(s0, St(), {})
      ensures st.Okay? ==> (reg < nactvar && freereg == n0) || (reg == n0 && freereg == n0 + 1)
      ensures st.Okay? ==> freereg <= maxstacksize < MAXSTACK && d' == Desc(VNonReloc(reg), NO_JUMP, NO_JUMP)
      ensures d.kind.VNonReloc? && d.t == d.f == NO_JUMP ==> st.Okay? && reg == d.kind.info && St() == old(St())
      ensures st.Error? ==> Exhausted(st)
    {
      hide *;
      VarsCompiled(s0, n0, d, t, f, e);
      VarsAre(d);
      d' := DischargedVars(d);
      CompiledParts(s0, n0, d', t, f, e);
      CompiledFacts(s0, n0, d', t, f, e);
      NoJumps(St(), d', t, f);
      if d'.kind.VNonReloc? {
        reg := d'.kind.info;
        if d'.t == d'.f {
          InRegister(s0, n0, d', t, f, e);
          d' := Desc(VNonReloc(reg), NO_JUMP, NO_JUMP);
          return Okay, d', reg;
        }
        if reg >= nactvar {
          st, d' := Exp2Reg(d', reg, t, f, s0, n0, e);
          if st.Okay? {
            RegisterIs();
            ComputesProvides(vm, np, s0, St(), reg, n0, e);
          }
          return;
        }
      }
      st, d' := Exp2NextReg(d', t, f, s0, n0, e);
      reg := 0;
      if st.Okay? {
        reg := d'.kind.info;
        RegisterIs();
        ComputesProvides(vm, np, s0, St(), n0, n0, e);
      }
    }

    lemma RegisterIs()
      ensures MAXSTACK < BITRK == 256 && NO_REG == 255
    {
    }

    lemma InRegister(s0: State, n0: nat, d: Desc, t: seq<nat>, f: seq<nat>, e: Expr)
      requires CompiledCode(s0, n0, d, t, f, e) && d.kind.VNonReloc? && t == [] && f == [] && !IsK(d.kind.info)
      ensures Provides(vm, np, s0, St(), d.kind.info, n0, e) && Extends(s0, St(), {})
      ensures d.t == NO_JUMP && d.f == NO_JUMP
    {
      MeansProvides(vm, np, s0, St(), d.kind, n0, e, d.kind.info);
      SetOfNone(t, f);
      OwnLists(d.kind, t, f);
    }

    // ----- operands of comparisons -----

    /** luaK_exp2RK has been here: a small constant, or a value in a register. */
    predicate Settled(d: Desc) {
      d.t == NO_JUMP && d.f == NO_JUMP && match d.kind
      case VK(i) => i <= 255
      case VNonReloc(_) => true
      case _ => false
    }

    function Operand(d: Desc): nat {
      match d.kind
      case VK(i) => i + BITRK
      case VNonReloc(i) => i
      case _ => 0
    }

    /** Constants that luaK_exp2RK looks up or adds. */
    function ConstantOf(kind: Kind): Option<Value> {
      match kind
      case VNil => Some(Nil)
      case VTrue => Some(Bool(true))
      case VFalse => Some(Bool(false))
      case VKNum(n) => Some(Number(n))
      case _ => None
    }

    /** luaK_exp2RK: the operand for an expression; doing it again changes nothing. */
    method Exp2RK(d: Desc, ghost t: seq<nat>, ghost f: seq<nat>, ghost s0: State, ghost n0: nat, ghost e: Expr)
      returns (st: Status, d': Desc, x: nat)
      requires Settled(d) || Compiled(s0, n0, d, t, f, e)
      modifies `code, `jpc, `jlist, `pend, `k, `h, `lasttarget, `freereg, `maxstacksize
      ensures Settled(d) ==> st.Okay? && d' == d && x == Operand(d)
      ensures Settled(d) ==>
        St() == old(St()) && h == old(h) && jpc == old(jpc) && freereg == old(freereg) && maxstacksize == old(maxstacksize)
      ensures old(Compiled(s0, n0, d, t, f, e)) && st.Okay? ==>
        ValidCode() && Provides(vm, np, s0, St(), x, n0, e) && Extends(s0, St(), {})
      ensures st.Okay? ==> Settled(d') && x == Operand(d') && (d'.kind.VK? ==> x <= 511)
      ensures old(Compiled(s0, n0, d, t, f, e)) && st.Okay? ==> OperandHere(x, n0) && freereg <= maxstacksize < MAXSTACK
      ensures st.Error? ==> Exhausted(st)
    {
      hide *;
      d' := DischargedVars(d);
      VarsAre(d);
      RegisterIs();
      SettledIs(d);
      SettledIs(d');
      x := 0;
      if Settled(d) {
        if Compiled(s0, n0, d, t, f, e) {
          SettledProvides(s0, n0, d, t, f, e);
        }
        return Okay, d, Operand(d);
      }
      VarsCompiled(s0, n0, d, t, f, e);
      CompiledParts(s0, n0, d', t, f, e);
      CompiledFacts(s0, n0, d', t, f, e);
      NoJumps(St(), d', t, f);
      if d.t == d.f {
        if ConstantOf(d'.kind).Some? {
          if |k| <= MAXINDEXRK {
            st, d', x := ConstantOperand(d', t, f, s0, n0, e);
            SettledIs(d');
            return;
          }
        } else if d'.kind.VK? && d'.kind.info <= MAXINDEXRK {
          x := d'.kind.info + BITRK;
          SmallConstant(s0, n0, d', t, f, e);
          d' := Desc(d'.kind, NO_JUMP, NO_JUMP);
          SettledIs(d');
          return Okay, d', x;
        }
      }
      st, d', x := Exp2AnyReg(d', t, f, s0, n0, e);
      if st.Okay? {
        SettledIs(d');
        RegisterHere(x, n0);
      }
    }

    lemma SettledProvides(s0: State, n0: nat, d: Desc, t: seq<nat>, f: seq<nat>, e: Expr)
      requires Compiled(s0, n0, d, t, f, e) && Settled(d)
      ensures ValidCode() && Provides(vm, np, s0, St(), Operand(d), n0, e) && Extends(s0, St(), {})
      ensures OperandHere(Operand(d), n0) && freereg <= maxstacksize < MAXSTACK
    {
      hide *;
      CompiledParts(s0, n0, d, t, f, e);
      CompiledFacts(s0, n0, d, t, f, e);
      SettledIs(d);
      SettledKinds(d, Operand(d));
      NoJumps(St(), d, t, f);
      if d.kind.VK? {
        SmallConstant(s0, n0, d, t, f, e);
      } else {
        InRegister(s0, n0, d, t, f, e);
        RegisterHere(d.kind.info, n0);
      }
    }

    lemma SettledKinds(d: Desc, x: nat)
      requires Settled(d) && x == Operand(d)
      ensures d.t == d.f == NO_JUMP
      ensures (d.kind.VK? && d.kind.info <= MAXINDEXRK && x == d.kind.info + BITRK) || (d.kind.VNonReloc? && x == d.kind.info)
    {
    }

    /** Where an operand is, and the registers it takes. */
    ghost predicate OperandHere(x: nat, n0: nat)
      reads `k, `nactvar, `freereg
    {
      if IsK(x) then x - BITRK < |k| && freereg == n0
      else (x < nactvar && freereg == n0) || (x == n0 && freereg == n0 + 1)
    }

    lemma RegisterHere(x: nat, n0: nat)
      requires ((x < nactvar && freereg == n0) || (x == n0 && freereg == n0 + 1)) && nactvar <= n0 && freereg < MAXSTACK
      ensures OperandHere(x, n0)
    {
    }

    lemma SettledIs(d: Desc)
      ensures d.kind.VK? && d.kind.info <= MAXINDEXRK && d.t == NO_JUMP && d.f == NO_JUMP ==>
        Settled(d) && Operand(d) == d.kind.info + BITRK
      ensures d.kind.VNonReloc? && d.t == NO_JUMP && d.f == NO_JUMP ==> Settled(d) && Operand(d) == d.kind.info
      ensures Settled(d) && d.kind.VK? ==> Operand(d) <= 511
      ensures d.kind.VLocal? ==> !Settled(d)
      ensures ConstantOf(d.kind).Some? ==> !d.kind.VNonReloc?
    {
    }

    method ConstantOperand(d: Desc, ghost t: seq<nat>, ghost f: seq<nat>, ghost s0: State, ghost n0: nat, ghost e: Expr)
      returns (st: Status, d': Desc, x: nat)
      requires CompiledCode(s0, n0, d, t, f, e) && t == [] && f == [] && ConstantOf(d.kind).Some?
      requires |k| <= MAXINDEXRK && freereg == n0 && freereg <= maxstacksize < MAXSTACK
      modifies `k, `h
      ensures st.Okay? ==> ValidCode() && Provides(vm, np, s0, St(), x, n0, e) && Extends(s0, St(), {})
      ensures st.Okay? ==> Settled(d') && x == Operand(d') && OperandHere(x, n0)
      ensures st.Error? ==> Exhausted(st)
    {
      ghost var s := St();
      var idx;
      st, idx := AddK(ConstantOf(d.kind).value);
      x := idx + BITRK;
      d' := Desc(VK(idx), NO_JUMP, NO_JUMP);
      if st.Okay? {
        ConstantProvides(vm, np, s0, s, d.kind, n0, e, k, idx);
        assert Own(d.kind, t, f) == {};
        MoreKExtends(s, k);
        ExtendsOn(s0, s, {}, St(), {});
        NoOwn({});
      }
    }

    lemma SmallConstant(s0: State, n0: nat, d: Desc, t: seq<nat>, f: seq<nat>, e: Expr)
      requires CompiledCode(s0, n0, d, t, f, e) && d.kind.VK? && t == [] && f == [] && freereg == n0
      ensures Provides(vm, np, s0, St(), d.kind.info + BITRK, n0, e) && Extends(s0, St(), {})
      ensures OperandHere(d.kind.info + BITRK, n0)
    {
      MeansProvides(vm, np, s0, St(), d.kind, n0, e, d.kind.info + BITRK);
      assert Own(d.kind, t, f) == {};
    }

    // ----- jumps on the truth of an expression -----

    /** A jump for `e` was emitted, or none was needed: its two lists, and the
        list `l` of the new jump, divide the runs by the truth of `e`. */
    ghost predicate Decided(s0: State, n0: nat, d: Desc, pc: int, t: seq<nat>, f: seq<nat>, l: seq<nat>, truth: bool,
        e: Expr)
      reads this
    {
      true <==> (
        && ValidCode() && Wf(s0)
        && IsList(code, d.t, t) && IsList(code, d.f, f) && IsList(code, pc, l)
        && (if truth then Apart(St(), f, l, t) else Apart(St(), t, l, f))
        && Branches(vm, np, s0, St(), if truth then t else t + l, if truth then f + l else f, truth, n0, e)
        && Extends(s0, St(), if truth then SetOf(f + l) + SetOf(t) else SetOf(t + l) + SetOf(f))
        && np <= nactvar <= n0 == freereg && freereg <= maxstacksize < MAXSTACK
      )
    }

    /** discharge2anyreg. */
    method Discharge2AnyReg(d: Desc, ghost t: seq<nat>, ghost f: seq<nat>, ghost s0: State, ghost n0: nat,
        ghost e: Expr)
      returns (st: Status, d': Desc)
      requires Compiled(s0, n0, d, t, f, e) && !d.kind.VLocal? && !d.kind.VJmp?
      modifies `code, `jpc, `jlist, `pend, `k, `h, `freereg, `maxstacksize
      ensures st.Okay? ==> Compiled(s0, n0, d', t, f, e) && d'.kind.VNonReloc? && d'.t == d.t && d'.f == d.f
      ensures st.Error? ==> Exhausted(st)
    {
      hide *;
      d' := d;
      CompiledParts(s0, n0, d, t, f, e);
      if d.kind.VNonReloc? {
        return Okay, d;
      }
      st := ReserveRegs(1);
      OneExhausted(st);
      if st.Okay? {
        CompiledFacts(s0, n0, d, t, f, e);
        StIs();
        ghost var s := St();
        st, d' := Discharge2Reg(d, freereg - 1, t, f);
        if st.Okay? {
          StIs();
          LoadMeans(vm, np, s0, s, d.kind, t, f, n0, e, St(), n0);
          ExtendsOn(s0, s, Own(d.kind, t, f), St(), {});
          OwnLists(d.kind, t, f);
          OwnLists(d'.kind, t, f);
          Longer(s0, s, St(), d.kind);
          LoadedAgain(s0, n0, d', t, f, e);
        }
      }
    }

    lemma LoadedAgain(s0: State, n0: nat, d: Desc, t: seq<nat>, f: seq<nat>, e: Expr)
      requires ValidCode() && np <= nactvar <= n0 && Wf(s0) && d.kind == VNonReloc(n0) && JumpsOk(St(), d, t, f)
      requires Means(vm, np, s0, St(), d.kind, t, f, n0, e)
      requires Extends(s0, St(), SetOf(t) + SetOf(f)) && |s0.code| <= |St().code|
      requires freereg == n0 + 1 && freereg <= maxstacksize < MAXSTACK
      ensures Compiled(s0, n0, d, t, f, e)
    {
      assert Own(d.kind, t, f) == SetOf(t) + SetOf(f);
    }

    /** jumponcond: the jump that is taken when the value has the truth `cond`. */
    method JumpOnCond(d: Desc, cond: bool, ghost t: seq<nat>, ghost f: seq<nat>, ghost s0: State, ghost n0: nat,
        ghost e: Expr)
      returns (st: Status, j: int)
      requires Compiled(s0, n0, d, t, f, e) && !d.kind.VLocal? && !d.kind.VJmp?
      modifies `code, `jpc, `jlist, `pend, `k, `h, `freereg, `maxstacksize
      ensures st.Okay? ==> |code| > 0 && Decided(s0, n0, d, j, t, f, [|code| - 1], !cond, e)
      ensures st.Error? ==> Exhausted(st)
    {
      hide *;
      if d.kind.VReloc? {
        st, j := JumpOnNot(d, cond, t, f, s0, n0, e);
      } else {
        j := NO_JUMP;
        var d';
        st, d' := Discharge2AnyReg(d, t, f, s0, n0, e);
        if st.Okay? {
          st, j := JumpOnReg(d', cond, t, f, s0, n0, e);
          DecidedFor(s0, n0, d', d, j, t, f, !cond, e);
        }
      }
    }

    lemma DecidedFor(s0: State, n0: nat, d: Desc, d': Desc, j: int, t: seq<nat>, f: seq<nat>, truth: bool, e: Expr)
      requires d.t == d'.t && d.f == d'.f
      ensures |code| > 0 && Decided(s0, n0, d, j, t, f, [|code| - 1], truth, e) ==>
        Decided(s0, n0, d', j, t, f, [|code| - 1], truth, e)
    {
    }

    method JumpOnReg(d: Desc, cond: bool, ghost t: seq<nat>, ghost f: seq<nat>, ghost s0: State, ghost n0: nat,
        ghost e: Expr)
      returns (st: Status, j: int)
      requires Compiled(s0, n0, d, t, f, e) && d.kind.VNonReloc?
      modifies `code, `jpc, `jlist, `pend, `freereg
      ensures st.Okay? ==> |code| > 0 && Decided(s0, n0, d, j, t, f, [|code| - 1], !cond, e)
      ensures st.Error? ==> Exhausted(st)
    {
      hide *;
      CompiledParts(s0, n0, d, t, f, e);
      CompiledFacts(s0, n0, d, t, f, e);
      StIs();
      ValidFacts();
      ghost var s := St();
      FreeExp(d);
      RegisterIs();
      var i := TestSet(NO_REG, d.kind.info, cond);
      TestSetJumps(vm, np, s, d.kind.info, cond);
      ghost var own := SetOf(t) + SetOf(f);
      OwnLists(d.kind, t, f);
      ListsOf(s, d, t, f);
      NoOwn(Own(d.kind, t, f));
      TestAdded(s0, s, own, d, t, f, i);
      st, j := CondJump(i);
      if st.Okay? {
        JumpBranches(vm, np, s0, s, d.kind, t, f, n0, e, St(), |s.code| + 1, cond);
        StIs();
        DecidedNow(s0, n0, d, j, t, f, cond, e);
      }
    }

    method JumpOnNot(d: Desc, cond: bool, ghost t: seq<nat>, ghost f: seq<nat>, ghost s0: State, ghost n0: nat,
        ghost e: Expr)
      returns (st: Status, j: int)
      requires Compiled(s0, n0, d, t, f, e) && d.kind.VReloc?
      modifies `code, `jpc, `jlist, `pend
      ensures st.Okay? ==> |code| > 0 && Decided(s0, n0, d, j, t, f, [|code| - 1], !cond, e)
      ensures st.Error? ==> Exhausted(st)
    {
      hide *;
      CompiledParts(s0, n0, d, t, f, e);
      CompiledFacts(s0, n0, d, t, f, e);
      StIs();
      ValidFacts();
      ghost var s := St();
      TailFacts(s, d, t, f);
      ConstantsOk();
      var ie := code[d.kind.info];
      NotJumps(vm, np, s, ie.a, ie.b, cond);
      NotTaken(s0, s, d, t, f);
      code := code[..|code| - 1];
      StIs();
      NoneHere(s);
      st, j := TestOperand(d, ie, cond, t, f, s, s0, n0, e);
    }

    method TestOperand(d: Desc, ie: Instr, cond: bool, ghost t: seq<nat>, ghost f: seq<nat>,
                       ghost s: State, ghost s0: State, ghost n0: nat, ghost e: Expr)
      returns (st: Status, j: int)
      requires ValidCode() && Wf(s0) && ie.Not? && ListsIn(St(), d, t, f) && Extends(s0, St(), SetOf(t) + SetOf(f))
      requires Means(vm, np, s0, s, d.kind, t, f, n0, e) && |s.code| == |code| + 1
      requires Jumps(vm, np, s, d.kind, EmitTest(St(), Test(ie.b, !cond)), |s.code|, cond)
      requires SameControls(s.code, code, t) && SameControls(s.code, code, f)
      requires np <= nactvar <= n0 == freereg && freereg <= maxstacksize < MAXSTACK
      modifies `code, `jpc, `jlist, `pend
      ensures st.Okay? ==> |code| > 0 && Decided(s0, n0, d, j, t, f, [|code| - 1], !cond, e)
      ensures st.Error? ==> Exhausted(st)
    {
      hide *;
      StIs();
      ValidFacts();
      TestAdded(s0, St(), SetOf(t) + SetOf(f), d, t, f, Test(ie.b, !cond));
      st, j := CondJump(Test(ie.b, !cond));
      if st.Okay? {
        StIs();
        SameTrans(s.code, old(code), code, t);
        SameTrans(s.code, old(code), code, f);
        JumpBranches(vm, np, s0, s, d.kind, t, f, n0, e, St(), |s.code|, cond);
        DecidedNow(s0, n0, d, j, t, f, cond, e);
      }
    }

    /** No jump leads to here, whatever the code. */
    lemma NoneHere(s: State)
      requires Wf(St()) && jlist == [] && s.k == k
      requires IsList(s.code, jpc, jlist)
      requires forall v :: v in h ==> h[v] < |k| && k[h[v]] == v
      ensures ValidCode()
    {
      assert IsList(code, jpc, jlist);
    }

    lemma ConstantsOk()
      requires ValidCode()
      ensures forall v :: v in h ==> h[v] < |k| && k[h[v]] == v
    {
    }

    lemma DecidedNow(s0: State, n0: nat, d: Desc, j: int, t: seq<nat>, f: seq<nat>, cond: bool, e: Expr)
      requires ValidCode() && Wf(s0) && |code| >= 2 && j == |code| - 1 && IsList(code, j, [j])
      requires ListsIn(St(), d, t, f) && j !in t && j !in f && j in pend && jlist == [] && IsTest(code[j - 1])
      requires Branches(vm, np, s0, St(), if cond then t + [|code| - 1] else t, if cond then f else f + [|code| - 1], !cond, n0, e)
      requires Extends(s0, St(), SetOf<nat>(t) + SetOf<nat>(f) + {|code| - 1})
      requires np <= nactvar <= n0 == freereg && freereg <= maxstacksize < MAXSTACK
      ensures Decided(s0, n0, d, j, t, f, [|code| - 1], !cond, e)
    {
      NewApart(St(), d, t, f, j);
    }

    /** What luaK_goiftrue and luaK_goiffalse leave: runs on which `e` has the
        truth go on, the others leave by the list `l` with their value. */
    ghost predicate Gated(s0: State, n0: nat, head: int, l: seq<nat>, truth: bool, e: Expr)
      reads this
    {
      true <==> (
        && ValidCode() && Wf(s0) && IsList(code, head, l)
        && Branches(vm, np, s0, St(), if truth then [] else l, if truth then l else [], truth, n0, e)
        && Extends(s0, St(), SetOf(l))
        && (forall p :: p in l ==> 0 < p < |code| && IsTest(code[p - 1]))
        && np <= nactvar <= n0 == freereg && freereg <= maxstacksize < MAXSTACK
      )
    }

    /** The end of both: the new jump joins one list, the other leads to here. */
    method JoinBranches(d: Desc, pc: int, truth: bool, ghost t: seq<nat>, ghost f: seq<nat>, ghost l: seq<nat>,
                        ghost s0: State, ghost n0: nat, ghost e: Expr)
      returns (st: Status, d': Desc)
      requires Decided(s0, n0, d, pc, t, f, l, truth, e)
      modifies `code, `jpc, `jlist, `lasttarget
      ensures st.Okay? ==> if truth then d'.t == NO_JUMP && Gated(s0, n0, d'.f, f + l, true, e)
        else d'.f == NO_JUMP && Gated(s0, n0, d'.t, t + l, false, e)
      ensures st.Error? ==> Exhausted(st)
    {
      hide *;
      DecidedFacts(s0, n0, d, pc, t, f, l, truth, e);
      StIs();
      ghost var s := St();
      ghost var a, b := if truth then f else t, if truth then t else f;
      var head;
      st, head := Concat(if truth then d.f else d.t, pc, a, l);
      d' := d;
      if st.Okay? {
        ghost var code1 := code;
        StIs();
        JoinLists(s, a, l, b, code1, if truth then d.t else d.f, jpc);
        st := PatchToHere(if truth then d.t else d.f, b);
        d' := if truth then Desc(d.kind, NO_JUMP, head) else Desc(d.kind, head, NO_JUMP);
        if st.Okay? {
          JoinedBranches(vm, np, s0, s, a, l, b, truth, n0, e, code1, code);
          JoinedList(s, a, l, b, code1, code, head);
          HereIs(s, b, code1, code);
          StIs();
          GatedNow(s0, n0, head, a + l, truth, e);
        }
      }
    }

    lemma DecidedFacts(s0: State, n0: nat, d: Desc, pc: int, t: seq<nat>, f: seq<nat>, l: seq<nat>, truth: bool,
        e: Expr)
      requires Decided(s0, n0, d, pc, t, f, l, truth, e)
      ensures Wf(s0) && Wf(St()) && IsList(code, jpc, jlist) && forall v :: v in h ==> h[v] < |k| && k[h[v]] == v
      ensures IsList(code, d.t, t) && IsList(code, d.f, f) && IsList(code, pc, l)
      ensures Apart(St(), if truth then f else t, l, if truth then t else f)
      ensures var a, b := if truth then f else t, if truth then t else f;
        && Distinct(a + l) && Extends(s0, St(), SetOf(a + l) + SetOf(b))
        && Branches(vm, np, s0, St(), if truth then b else a + l, if truth then a + l else b, truth, n0, e)
      ensures np <= nactvar <= n0 == freereg && freereg <= maxstacksize < MAXSTACK
    {
    }

    lemma GatedNow(s0: State, n0: nat, head: int, l: seq<nat>, truth: bool, e: Expr)
      requires Wf(St()) && IsList(code, jpc, jlist) && forall v :: v in h ==> h[v] < |k| && k[h[v]] == v
      requires Wf(s0) && IsList(code, head, l)
      requires Branches(vm, np, s0, St(), if truth then [] else l, if truth then l else [], truth, n0, e)
      requires Extends(s0, St(), SetOf(l))
      requires forall p :: p in l ==> 0 < p < |code| && IsTest(code[p - 1])
      requires np <= nactvar <= n0 == freereg && freereg <= maxstacksize < MAXSTACK
      ensures Gated(s0, n0, head, l, truth, e)
    {
    }

    /** luaK_goiftrue. */
    method GoIfTrue(d0: Desc, ghost t: seq<nat>, ghost f: seq<nat>, ghost s0: State, ghost n0: nat, ghost e: Expr)
      returns (st: Status, d': Desc, ghost l: seq<nat>)
      requires Compiled(s0, n0, d0, t, f, e)
      modifies `code, `jpc, `jlist, `pend, `k, `h, `lasttarget, `freereg, `maxstacksize
      ensures st.Okay? ==> d'.t == NO_JUMP && Gated(s0, n0, d'.f, l, true, e)
      ensures st.Error? ==> Exhausted(st)
    {
      hide *;
      var d := DischargedVars(d0);
      VarsAre(d0);
      VarsCompiled(s0, n0, d0, t, f, e);
      var pc := NO_JUMP;
      ghost var new_: seq<nat> := [];
      st := Okay;
      if d.kind.VK? || d.kind.VKNum? || d.kind.VTrue? {
        AlwaysDecided(s0, n0, d, t, f, true, e);
      } else if d.kind.VJmp? {
        InvertDecided(d, t, f, s0, n0, e);
        pc, new_ := d.kind.info, [d.kind.info];
      } else {
        st, pc := JumpOnCond(d, false, t, f, s0, n0, e);
        new_ := if st.Okay? then [|code| - 1] else [];
      }
      d', l := d, f + new_;
      if st.Okay? {
        st, d' := JoinBranches(d, pc, true, t, f, new_, s0, n0, e);
      }
    }

    /** luaK_goiffalse. */
    method GoIfFalse(d0: Desc, ghost t: seq<nat>, ghost f: seq<nat>, ghost s0: State, ghost n0: nat, ghost e: Expr)
      returns (st: Status, d': Desc, ghost l: seq<nat>)
      requires Compiled(s0, n0, d0, t, f, e)
      modifies `code, `jpc, `jlist, `pend, `k, `h, `lasttarget, `freereg, `maxstacksize
      ensures st.Okay? ==> d'.f == NO_JUMP && Gated(s0, n0, d'.t, l, false, e)
      ensures st.Error? ==> Exhausted(st)
    {
      hide *;
      var d := DischargedVars(d0);
      VarsAre(d0);
      VarsCompiled(s0, n0, d0, t, f, e);
      var pc := NO_JUMP;
      ghost var new_: seq<nat> := [];
      st := Okay;
      if d.kind.VNil? || d.kind.VFalse? {
        AlwaysDecided(s0, n0, d, t, f, false, e);
      } else if d.kind.VJmp? {
        CompareDecided(s0, n0, d, t, f, e);
        pc, new_ := d.kind.info, [d.kind.info];
      } else {
        st, pc := JumpOnCond(d, true, t, f, s0, n0, e);
        new_ := if st.Okay? then [|code| - 1] else [];
      }
      d', l := d, t + new_;
      if st.Okay? {
        st, d' := JoinBranches(d, pc, false, t, f, new_, s0, n0, e);
      }
    }

    lemma AlwaysDecided(s0: State, n0: nat, d: Desc, t: seq<nat>, f: seq<nat>, truth: bool, e: Expr)
      requires Compiled(s0, n0, d, t, f, e)
      requires if truth then d.kind.VK? || d.kind.VKNum? || d.kind.VTrue? else d.kind.VNil? || d.kind.VFalse?
      ensures Decided(s0, n0, d, NO_JUMP, t, f, [], truth, e)
    {
      hide *;
      CompiledParts(s0, n0, d, t, f, e);
      CompiledFacts(s0, n0, d, t, f, e);
      ListsOf(St(), d, t, f);
      NoneApart(St(), d, t, f);
      OwnLists(d.kind, t, f);
      NoOwn(Own(d.kind, t, f));
      ConstantTruth(vm, np, s0, St(), d, t, f, n0, e, truth);
      DecidedIs(s0, n0, d, NO_JUMP, t, f, [], truth, e);
    }

    lemma DecidedIs(s0: State, n0: nat, d: Desc, pc: int, t: seq<nat>, f: seq<nat>, l: seq<nat>, truth: bool, e: Expr)
      requires ValidCode() && Wf(s0) && ListsIn(St(), d, t, f) && ((l == [] && pc == NO_JUMP) || IsList(code, pc, l))
      requires if truth then Apart(St(), f, l, t) else Apart(St(), t, l, f)
      requires Branches(vm, np, s0, St(), if truth then t else t + l, if truth then f + l else f, truth, n0, e)
      requires Extends(s0, St(), if truth then SetOf(f + l) + SetOf(t) else SetOf(t + l) + SetOf(f))
      requires np <= nactvar <= n0 == freereg && freereg <= maxstacksize < MAXSTACK
      ensures Decided(s0, n0, d, pc, t, f, l, truth, e)
    {
    }

    /** A comparison jumps when it holds. */
    lemma CompareDecided(s0: State, n0: nat, d: Desc, t: seq<nat>, f: seq<nat>, e: Expr)
      requires Compiled(s0, n0, d, t, f, e) && d.kind.VJmp?
      ensures Decided(s0, n0, d, d.kind.info, t, f, [d.kind.info], false, e)
    {
      hide *;
      CompiledParts(s0, n0, d, t, f, e);
      CompiledFacts(s0, n0, d, t, f, e);
      ValidFacts();
      StIs();
      var p := d.kind.info;
      OwnJump(St(), d, t, f);
      ListsOf(St(), d, t, f);
      CompareJumps(vm, np, St(), p);
      ControlsOf(St(), d, t, f);
      JumpBranches(vm, np, s0, St(), d.kind, t, f, n0, e, St(), p, true);
      CompareApart(St(), d, t, f);
      DecidedIs(s0, n0, d, p, t, f, [p], false, e);
    }

    /** invertjump. */
    method InvertJump(p: nat)
      requires 0 < p < |code| && code[p - 1].Compare?
      modifies `code
      ensures code == old(code)[p - 1 := Inverted(old(code)[p - 1])]
    {
      var i := code[p - 1];
      code := code[p - 1 := Compare(i.op, !i.cond, i.b, i.c)];
    }

    /** Turned around, it jumps when it does not hold. */
    method InvertDecided(d: Desc, ghost t: seq<nat>, ghost f: seq<nat>, ghost s0: State, ghost n0: nat, ghost e: Expr)
      requires Compiled(s0, n0, d, t, f, e) && d.kind.VJmp?
      modifies `code
      ensures Decided(s0, n0, d, d.kind.info, t, f, [d.kind.info], true, e)
    {
      hide *;
      CompiledParts(s0, n0, d, t, f, e);
      CompiledFacts(s0, n0, d, t, f, e);
      ValidFacts();
      ConstantsOk();
      StIs();
      ghost var s := St();
      var p := d.kind.info;
      OwnJump(s, d, t, f);
      InvertJump(p);
      StIs();
      Inversion(vm, np, s0, s, d, t, f, p, code);
      NoneHere(s);
      JumpBranches(vm, np, s0, s, d.kind, t, f, n0, e, St(), p, false);
      CompareApart(St(), d, t, f);
      DecidedIs(s0, n0, d, p, t, f, [p], true, e);
    }

    // ----- not -----

    /** codenot. */
    method CodeNot(d0: Desc, ghost t: seq<nat>, ghost f: seq<nat>, ghost s0: State, ghost n0: nat, ghost e: Expr)
      returns (st: Status, d': Desc)
      requires Compiled(s0, n0, d0, t, f, e)
      modifies `code, `jpc, `jlist, `pend, `k, `h, `freereg, `maxstacksize
      ensures st.Okay? ==> Compiled(s0, n0, d', f, t, ENot(e))
      ensures st.Error? ==> Exhausted(st)
    {
      hide *;
      var d := DischargedVars(d0);
      VarsAre(d0);
      VarsCompiled(s0, n0, d0, t, f, e);
      ghost var s, kind;
      st, d, s, kind := Negate(d, t, f, s0, n0, e);
      d' := d;
      if st.Okay? {
        d' := Desc(d.kind, d.f, d.t);
        RemoveAllValues(d, t, f, s, kind, s0, n0, e);
      }
    }

    /** Where the negated value is found, before the lists are exchanged. */
    ghost predicate Negatable(s0: State, n0: nat, d: Desc, t: seq<nat>, f: seq<nat>, s: State, kind: Kind, e: Expr)
      reads this
    {
      true <==> (
        && ValidCode() && Wf(s0) && Wf(Body(St(), d.kind))
        && Means(vm, np, s0, s, kind, t, f, n0, e) && Negates(vm, np, s, kind, St(), d.kind)
        && JumpsOk(St(), d, t, f) && Extends(s0, St(), Own(d.kind, t, f)) && |s0.code| <= |Body(St(), d.kind).code|
        && np <= nactvar <= n0 && freereg <= maxstacksize < MAXSTACK && RegsOk(d.kind, n0)
      )
    }

    method Negate(d: Desc, ghost t: seq<nat>, ghost f: seq<nat>, ghost s0: State, ghost n0: nat, ghost e: Expr)
      returns (st: Status, d': Desc, ghost s: State, ghost kind: Kind)
      requires Compiled(s0, n0, d, t, f, e) && !d.kind.VLocal?
      modifies `code, `jpc, `jlist, `pend, `k, `h, `freereg, `maxstacksize
      ensures st.Okay? ==> Negatable(s0, n0, d', t, f, s, kind, e) && d'.t == d.t && d'.f == d.f
      ensures st.Error? ==> Exhausted(st)
    {
      hide *;
      s, kind := St(), d.kind;
      st, d' := Okay, d;
      if d.kind.VNil? || d.kind.VFalse? {
        d' := d.(kind := VTrue);
        NegateConstant(s0, n0, d, t, f, e, VTrue);
      } else if d.kind.VK? || d.kind.VKNum? || d.kind.VTrue? {
        d' := d.(kind := VFalse);
        NegateConstant(s0, n0, d, t, f, e, VFalse);
      } else if d.kind.VJmp? {
        NegateCompare(d, t, f, s0, n0, e);
      } else {
        st, d', s, kind := NegateValue(d, t, f, s0, n0, e);
      }
    }

    lemma NegateConstant(s0: State, n0: nat, d: Desc, t: seq<nat>, f: seq<nat>, e: Expr, kind1: Kind)
      requires Compiled(s0, n0, d, t, f, e)
      requires if d.kind.VNil? || d.kind.VFalse? then kind1
        == VTrue else (d.kind.VK? || d.kind.VKNum? || d.kind.VTrue?) && kind1 == VFalse
      ensures Negatable(s0, n0, d.(kind := kind1), t, f, St(), d.kind, e)
    {
      hide *;
      CompiledParts(s0, n0, d, t, f, e);
      CompiledFacts(s0, n0, d, t, f, e);
      ValidFacts();
      ConstantNegates(vm, np, St(), d, t, f, kind1);
      NegatableNow(s0, n0, d.(kind := kind1), t, f, St(), d.kind, e);
    }

    lemma NegatableNow(s0: State, n0: nat, d: Desc, t: seq<nat>, f: seq<nat>, s: State, kind: Kind, e: Expr)
      requires ValidCode() && Wf(s0) && Wf(Body(St(), d.kind))
      requires Means(vm, np, s0, s, kind, t, f, n0, e) && Negates(vm, np, s, kind, St(), d.kind)
      requires JumpsOk(St(), d, t, f) && Extends(s0, St(), Own(d.kind, t, f)) && |s0.code| <= |Body(St(), d.kind).code|
      requires np <= nactvar <= n0 && freereg <= maxstacksize < MAXSTACK
      requires freereg == n0 && !d.kind.VLocal? && !d.kind.VNonReloc?
      ensures Negatable(s0, n0, d, t, f, s, kind, e)
    {
    }

    method NegateCompare(d: Desc, ghost t: seq<nat>, ghost f: seq<nat>, ghost s0: State, ghost n0: nat, ghost e: Expr)
      requires Compiled(s0, n0, d, t, f, e) && d.kind.VJmp?
      modifies `code
      ensures Negatable(s0, n0, d, t, f, old(St()), d.kind, e)
    {
      hide *;
      CompiledParts(s0, n0, d, t, f, e);
      CompiledFacts(s0, n0, d, t, f, e);
      ValidFacts();
      ConstantsOk();
      StIs();
      ghost var s := St();
      var p := d.kind.info;
      OwnJump(s, d, t, f);
      InvertJump(p);
      StIs();
      Inversion(vm, np, s0, s, d, t, f, p, code);
      CompareNegates(vm, np, s0, s, d, t, f, p, code);
      NoneHere(s);
      NegatableNow(s0, n0, d, t, f, s, d.kind, e);
    }

    method NegateValue(d: Desc, ghost t: seq<nat>, ghost f: seq<nat>, ghost s0: State, ghost n0: nat, ghost e: Expr)
      returns (st: Status, d': Desc, ghost s: State, ghost kind: Kind)
      requires Compiled(s0, n0, d, t, f, e) && !d.kind.VLocal? && !d.kind.VJmp?
      modifies `code, `jpc, `jlist, `pend, `k, `h, `freereg, `maxstacksize
      ensures st.Okay? ==> Negatable(s0, n0, d', t, f, s, kind, e) && d'.t == d.t && d'.f == d.f
      ensures st.Error? ==> Exhausted(st)
    {
      hide *;
      s, kind := St(), d.kind;
      st, d' := Discharge2AnyReg(d, t, f, s0, n0, e);
      if st.Okay? {
        CompiledParts(s0, n0, d', t, f, e);
        CompiledFacts(s0, n0, d', t, f, e);
        ValidFacts();
        ConstantsOk();
        FreeExp(d');
        s, kind := St(), d'.kind;
        StIs();
        OwnLists(d'.kind, t, f);
        NoOwn(Own(d'.kind, t, f));
        SelfBody(s, d'.kind);
        EmitNegates(vm, np, s0, s, d'.kind.info, d', t, f);
        st := CodeInstr(Not(0, d'.kind.info));
        if st.Okay? {
          EmitIs(s, Not(0, d'.kind.info));
          StIs();
          NoneHereNow();
          d' := d'.(kind := VReloc(|code| - 1));
          NegatableNow(s0, n0, d', t, f, s, kind, e);
        }
      }
    }

    lemma NoneHereNow()
      requires Wf(St()) && jlist == [] && jpc == NO_JUMP && forall v :: v in h ==> h[v] < |k| && k[h[v]] == v
      ensures ValidCode()
    {
      assert IsList(code, jpc, jlist);
    }

    /** The lists change places, and their jumps lose the values they brought. */
    method RemoveAllValues(d: Desc, ghost t: seq<nat>, ghost f: seq<nat>, ghost s: State, ghost kind: Kind,
                           ghost s0: State, ghost n0: nat, ghost e: Expr)
      requires Negatable(s0, n0, d, t, f, s, kind, e)
      modifies `code
      ensures Compiled(s0, n0, Desc(d.kind, d.f, d.t), f, t, ENot(e))
    {
      hide *;
      NegatableFacts(s0, n0, d, t, f, s, kind, e);
      StIs();
      ghost var s1 := St();
      JumpsFacts(s1, d, t, f);
      NoLongerJumps(s0, s1, d, t, f);
      NoLongerMeans(vm, np, s0, s, kind, t, f, n0, e, s1, d);
      NoLongerList(s1, d, t, f, jpc);
      RemoveValues(d.t, t);
      RemoveValues(d.f, f);
      NoLongerIs(s1.code, t, f);
      StIs();
      CompiledNow(s0, n0, Desc(d.kind, d.f, d.t), f, t, ENot(e));
    }

    lemma NegatableFacts(s0: State, n0: nat, d: Desc, t: seq<nat>, f: seq<nat>, s: State, kind: Kind, e: Expr)
      requires Negatable(s0, n0, d, t, f, s, kind, e)
      ensures Wf(St()) && IsList(code, jpc, jlist) && forall v :: v in h ==> h[v] < |k| && k[h[v]] == v
      ensures Wf(s0) && Wf(Body(St(), d.kind))
      ensures Means(vm, np, s0, s, kind, t, f, n0, e) && Negates(vm, np, s, kind, St(), d.kind)
      ensures JumpsOk(St(), d, t, f) && Extends(s0, St(), Own(d.kind, t, f)) && |s0.code| <= |Body(St(), d.kind).code|
      ensures np <= nactvar <= n0 && freereg <= maxstacksize < MAXSTACK && RegsOk(d.kind, n0)
    {
    }

    lemma CompiledNow(s0: State, n0: nat, d: Desc, t: seq<nat>, f: seq<nat>, e: Expr)
      requires Wf(St()) && IsList(code, jpc, jlist) && forall v :: v in h ==> h[v] < |k| && k[h[v]] == v
      requires Wf(s0) && JumpsOk(St(), d, t, f) && Means(vm, np, s0, St(), d.kind, t, f, n0, e)
      requires Extends(s0, St(), Own(d.kind, t, f)) && |s0.code| <= |Body(St(), d.kind).code|
      requires np <= nactvar <= n0 && freereg <= maxstacksize < MAXSTACK && RegsOk(d.kind, n0)
      ensures Compiled(s0, n0, d, t, f, e)
    {
    }

    // ----- operators -----

    /** codecomp: two operands that luaK_exp2RK has settled, and the comparison. */
    method CodeComp(op: CompOp, cond: bool, x: nat, y: nat) returns (st: Status, d: Desc)
      requires ValidCode() && OperandOk(|k|, x) && OperandOk(|k|, y)
      modifies `code, `jpc, `jlist, `pend
      ensures st.Okay? ==> ValidCode() && |code| >= 2 && d == Desc(VJmp(|code| - 1), NO_JUMP, NO_JUMP)
      ensures st.Okay? ==>
        St() == EmitTest(old(St()), if !cond && op != EQ then Compare(op, true, y, x) else Compare(op, cond, x, y))
      ensures st.Error? ==> Exhausted(st)
    {
      var o1, o2, c := x, y, cond;
      if !cond && op != EQ {
        o1, o2, c := y, x, true;
      }
      var j;
      st, j := CondJump(Compare(op, c, o1, o2));
      d := if st.Okay? then Desc(VJmp(j), NO_JUMP, NO_JUMP) else Desc(VNil, NO_JUMP, NO_JUMP);
    }

    function OpcodeOf(op: RelOp): (CompOp, bool) {
      match op
      case Eq => (EQ, true)
      case Ne => (EQ, false)
      case Lt => (LT, true)
      case Le => (LE, true)
      case Gt => (LT, false)
      case Ge => (LE, false)
    }

    lemma OpcodeIs(op: RelOp)
      ensures var (c, cond) := OpcodeOf(op);
        var swap := !cond && c != EQ;
        ComparesAs(op, c, swap || cond, swap)
    {
    }

    /** luaK_posfix for a comparison, after luaK_infix settled its first operand. */
    method PosfixCompare(op: RelOp, d1: Desc, d2: Desc, ghost t: seq<nat>, ghost f: seq<nat>,
                         ghost s0: State, ghost n0: nat, ghost a: Expr, ghost s1: State, ghost n1: nat, ghost b: Expr)
      returns (st: Status, d: Desc)
      requires Settled(d1) && Provides(vm, np, s0, s1, Operand(d1), n0, a) && Extends(s0, s1, {})
      requires Compiled(s1, n1, d2, t, f, b) && Wf(s0) && nactvar <= n0 && LocalsBelow(b, n0)
      requires FirstHere(s1, Operand(d1), n0, n1)
      modifies `code, `jpc, `jlist, `pend, `k, `h, `lasttarget, `freereg, `maxstacksize
      ensures st.Okay? ==> Compiled(s0, n0, d, [], [], ECompare(op, a, b))
      ensures st.Error? ==> Exhausted(st)
    {
      FirstIs(s1, Operand(d1), n0, n1);
      hide *;
      StIs();
      ghost var none: seq<nat> := [];
      var d1', o1, d2', o2;
      st, d1', o1 := Exp2RK(d1, none, none, s0, n0, a);
      StIs();
      st, d2', o2 := Exp2RK(d2, t, f, s1, n1, b);
      d := d2';
      if st.Okay? {
        FreeOperands(d1, d2', s1, n0, n1);
        st, d := CompareOperands(op, o1, o2, s0, n0, a, s1, n1, b);
      }
    }

    /** The second operand is freed before the first. */
    method FreeOperands(d1: Desc, d2: Desc, ghost s1: State, ghost n0: nat, ghost n1: nat)
      requires Settled(d1) && Settled(d2) && FirstHere(s1, Operand(d1), n0, n1) && OperandHere(Operand(d2), n1)
      requires nactvar <= n0 <= n1 && freereg < MAXSTACK
      modifies `freereg
      ensures freereg == n0
    {
      FreeExp(d2);
      FreeExp(d1);
    }

    method CompareOperands(op: RelOp, x: nat, y: nat, ghost s0: State, ghost n0: nat, ghost a: Expr,
                           ghost s1: State, ghost n1: nat, ghost b: Expr)
      returns (st: Status, d: Desc)
      requires ValidCode() && Wf(s0) && np <= nactvar <= n0 == freereg && freereg <= maxstacksize < MAXSTACK
      requires Provides(vm, np, s0, s1, x, n0, a) && Provides(vm, np, s1, St(), y, n1, b)
      requires Extends(s0, s1, {}) && Extends(s1, St(), {})
      requires LocalsBelow(b, n0) && FirstHere(s1, x, n0, n1)
      requires OperandOk(|k|, x) && OperandOk(|k|, y)
      modifies `code, `jpc, `jlist, `pend
      ensures st.Okay? ==> Compiled(s0, n0, d, [], [], ECompare(op, a, b))
      ensures st.Error? ==> Exhausted(st)
    {
      FirstIs(s1, x, n0, n1);
      hide *;
      StIs();
      ValidFacts();
      ConstantsOk();
      var (c, cond) := OpcodeOf(op);
      OpcodeIs(op);
      ghost var s2 := St();
      st, d := CodeComp(c, cond, x, y);
      if st.Okay? {
        StIs();
        NoJumpIs();
        CompareCompiled(vm, np, s0, s1, x, n0, a, s2, y, n1, b, op, c, cond, St(), d);
        ValidFacts();
        RegsFree(d.kind, n0);
        CompiledNow(s0, n0, d, [], [], ECompare(op, a, b));
      }
    }

    lemma FirstIs(s1: State, x: nat, n0: nat, n1: nat)
      requires FirstHere(s1, x, n0, n1) && nactvar <= n0
      ensures n0 <= n1 && if IsK(x) then x - BITRK < |s1.k| else x < n1
    {
    }

    lemma RegsFree(kind: Kind, n0: nat)
      requires freereg == n0 && !kind.VLocal? && !kind.VNonReloc?
      ensures RegsOk(kind, n0)
    {
    }

    ghost predicate FirstHere(s1: State, x: nat, n0: nat, n1: nat)
      reads `nactvar
    {
      if IsK(x) then x - BITRK < |s1.k| && n1 == n0 else (x < nactvar && n1 == n0) || (x == n0 && n1 == n0 + 1)
    }

    lemma GatedFacts(s0: State, n0: nat, head: int, l: seq<nat>, truth: bool, e: Expr)
      requires Gated(s0, n0, head, l, truth, e)
      ensures ValidCode() && Wf(s0) && Wf(St()) && IsList(code, head, l)
      ensures Branches(vm, np, s0, St(), if truth then [] else l, if truth then l else [], truth, n0, e)
      ensures Extends(s0, St(), SetOf(l))
      ensures forall p :: p in l ==> 0 < p < |code| && IsTest(code[p - 1])
      ensures np <= nactvar <= n0 == freereg && freereg <= maxstacksize < MAXSTACK
    {
    }

    /** luaK_posfix for `and`: the jumps taken when the first operand is false
        join the false list of the second. */
    method PosfixAnd(d1: Desc, d2: Desc, ghost l1: seq<nat>, ghost t: seq<nat>, ghost f: seq<nat>,
                     ghost s0: State, ghost s1: State, ghost n0: nat, ghost a: Expr, ghost b: Expr)
      returns (st: Status, d': Desc)
      requires Compiled(s1, n0, d2, t, f, b) && LocalsBelow(b, n0) && Wf(s0)
      requires Branches(vm, np, s0, s1, [], l1, true, n0, a) && Extends(s0, s1, SetOf(l1)) && IsList(s1.code, d1.f, l1)
      requires forall p :: p in l1 ==> 0 < p < |s1.code| && IsTest(s1.code[p - 1])
      modifies `code
      ensures st.Okay? ==> Compiled(s0, n0, d', t, f + l1, EAnd(a, b))
      ensures st.Error? ==> Exhausted(st)
    {
      hide *;
      var d := DischargedVars(d2);
      VarsAre(d2);
      VarsCompiled(s1, n0, d2, t, f, b);
      SecondFacts(s0, s1, n0, d, l1, d1.f, t, f, b);
      ghost var s := St();
      StIs();
      var head;
      st, head := Concat(d.f, d1.f, f, l1);
      d' := d.(f := head);
      if st.Okay? {
        AndCompiled(vm, np, s0, s1, l1, s, d, t, f, n0, a, b, code, head);
        StIs();
        WaitingList(s, f, code, jpc);
        CompiledNow(s0, n0, d', t, f + l1, EAnd(a, b));
      }
    }

    method PosfixOr(d1: Desc, d2: Desc, ghost l1: seq<nat>, ghost t: seq<nat>, ghost f: seq<nat>,
                    ghost s0: State, ghost s1: State, ghost n0: nat, ghost a: Expr, ghost b: Expr)
      returns (st: Status, d': Desc)
      requires Compiled(s1, n0, d2, t, f, b) && LocalsBelow(b, n0) && Wf(s0)
      requires Branches(vm, np, s0, s1, l1, [], false, n0, a) && Extends(s0, s1, SetOf(l1)) && IsList(s1.code, d1.t, l1)
      requires forall p :: p in l1 ==> 0 < p < |s1.code| && IsTest(s1.code[p - 1])
      modifies `code
      ensures st.Okay? ==> Compiled(s0, n0, d', t + l1, f, EOr(a, b))
      ensures st.Error? ==> Exhausted(st)
    {
      hide *;
      var d := DischargedVars(d2);
      VarsAre(d2);
      VarsCompiled(s1, n0, d2, t, f, b);
      SecondFacts(s0, s1, n0, d, l1, d1.t, t, f, b);
      ghost var s := St();
      StIs();
      var head;
      st, head := Concat(d.t, d1.t, t, l1);
      d' := d.(t := head);
      if st.Okay? {
        OrCompiled(vm, np, s0, s1, l1, s, d, t, f, n0, a, b, code, head);
        StIs();
        WaitingList(s, t, code, jpc);
        CompiledNow(s0, n0, d', t + l1, f, EOr(a, b));
      }
    }

    /** What is known when the second operand of `and` or `or` is compiled. */
    lemma SecondFacts(s0: State, s1: State, n0: nat, d: Desc, l1: seq<nat>, head1: int, t: seq<nat>, f: seq<nat>,
        b: Expr)
      requires Compiled(s1, n0, d, t, f, b) && Wf(s0) && Extends(s0, s1, SetOf(l1)) && IsList(s1.code, head1, l1)
      requires forall p :: p in l1 ==> 0 < p < |s1.code| && IsTest(s1.code[p - 1])
      ensures Wf(St()) && IsList(code, jpc, jlist) && forall v :: v in h ==> h[v] < |k| && k[h[v]] == v
      ensures JumpsOk(St(), d, t, f) && Means(vm, np, s1, St(), d.kind, t, f, n0, b)
      ensures Extends(s1, St(), Own(d.kind, t, f)) && |s1.code| <= |Body(St(), d.kind).code|
      ensures np <= nactvar <= n0 && freereg <= maxstacksize < MAXSTACK && RegsOk(d.kind, n0)
      ensures IsList(code, d.t, t) && IsList(code, d.f, f) && IsList(code, head1, l1)
      ensures Distinct(t + l1) && Distinct(f + l1)
      ensures forall p :: p in t || p in f ==> p !in jlist
    {
      hide *;
      CompiledParts(s1, n0, d, t, f, b);
      CompiledFacts(s1, n0, d, t, f, b);
      ValidFacts();
      ConstantsOk();
      StIs();
      JumpsFacts(St(), d, t, f);
      FirstJumps(s0, s1, l1, St(), d, t, f);
      FirstList(s0, s1, l1, head1, St(), Own(d.kind, t, f));
      FirstDistinct(code, head1, l1);
      DistinctJoin(t, l1);
      DistinctJoin(f, l1);
    }

    lemma FirstDistinct(code: seq<Instr>, head: int, l: seq<nat>)
      requires IsList(code, head, l)
      ensures Distinct(l)
    {
    }

    lemma WaitingList(s: State, l: seq<nat>, code': seq<Instr>, jpc: int)
      requires IsList(s.code, jpc, s.jpc) && Relinked(s.code, code', l) && forall p :: p in l ==> p !in s.jpc
      ensures IsList(code', jpc, s.jpc)
    {
      KeepsList(s.code, code', jpc, s.jpc);
    }

    // ----- whole expressions -----

    /** An expression that is a constant or a variable. */
    method Simple(e: Expr) returns (st: Status, d: Desc)
      requires Valid() && LocalsBelow(e, nactvar)
      requires e.ENil? || e.ETrue? || e.EFalse? || e.ENumber? || e.EText? || e.ELocal?
      modifies `k, `h
      ensures st.Okay? ==> Compiled(old(St()), freereg, d, [], [], e)
      ensures st.Error? ==> Exhausted(st)
    {
      ghost var s0 := St();
      var kind;
      st := Okay;
      match e {
      case ENil => kind := VNil;
      case ETrue => kind := VTrue;
      case EFalse => kind := VFalse;
      case ENumber(n) => kind := VKNum(n);
      case ELocal(reg) => kind := VLocal(reg);
      case EText(n) =>
        var idx;
        st, idx := AddK(Text(n));
        kind := VK(idx);
      }
      d := Desc(kind, NO_JUMP, NO_JUMP);
      if st.Okay? {
        SimpleMeans(vm, np, s0, k, kind, freereg, e);
        MoreKExtends(s0, k);
        assert St() == s0.(k := k);
        assert Own(kind, [], []) == {};
        CompiledNow(s0, freereg, d, [], [], e);
      }
    }

    /** subexpr on an expression tree: operands and operators in the order in
        which the parser meets them. */
    method CompileExpr(e: Expr) returns (st: Status, d: Desc, ghost t: seq<nat>, ghost f: seq<nat>)
      requires Valid() && LocalsBelow(e, nactvar)
      modifies `code, `jpc, `jlist, `pend, `k, `h, `lasttarget, `freereg, `maxstacksize
      ensures st.Okay? ==> Compiled(old(St()), old(freereg), d, t, f, e)
      ensures st.Error? ==> Exhausted(st)
      decreases e, 2
    {
      t, f := [], [];
      match e {
      case ENot(a) =>
        st, d, t, f := CompileExpr(a);
        if st.Okay? {
          st, d := CodeNot(d, t, f, old(St()), old(freereg), a);
          t, f := f, t;
        }
      case EParen(a) =>
        st, d, t, f := CompileExpr(a);
        if st.Okay? {
          VarsCompiled(old(St()), old(freereg), d, t, f, a);
          d := DischargedVars(d);
          ParenCompiled(old(St()), old(freereg), d, t, f, a);
        }
      case EAnd(_, _) =>
        st, d, t, f := CompileLogical(e);
      case EOr(_, _) =>
        st, d, t, f := CompileLogical(e);
      case ECompare(_, _, _) =>
        st, d := CompileCompare(e);
      case _ =>
        st, d := Simple(e);
      }
    }

    lemma ParenCompiled(s0: State, n0: nat, d: Desc, t: seq<nat>, f: seq<nat>, a: Expr)
      requires Compiled(s0, n0, d, t, f, a)
      ensures Compiled(s0, n0, d, t, f, EParen(a))
    {
      hide *;
      CompiledParts(s0, n0, d, t, f, a);
      CompiledFacts(s0, n0, d, t, f, a);
      ValidFacts();
      ConstantsOk();
      ParenMeans(vm, np, s0, St(), d.kind, t, f, n0, a);
      CompiledNow(s0, n0, d, t, f, EParen(a));
    }

    /** The first operand, luaK_infix, the second operand, luaK_posfix. */
    method CompileLogical(e: Expr) returns (st: Status, d: Desc, ghost t: seq<nat>, ghost f: seq<nat>)
      requires Valid() && LocalsBelow(e, nactvar) && (e.EAnd? || e.EOr?)
      modifies `code, `jpc, `jlist, `pend, `k, `h, `lasttarget, `freereg, `maxstacksize
      ensures st.Okay? ==> Compiled(old(St()), old(freereg), d, t, f, e)
      ensures st.Error? ==> Exhausted(st)
      decreases e, 1
    {
      BelowMore(e.r, nactvar, freereg);
      assert LocalsBelow(e.l, nactvar) && LocalsBelow(e.r, nactvar);
      hide *;
      ghost var s0, n0 := St(), freereg;
      st, d, t, f := CompileExpr(e.l);
      if st.Error? {
        return;
      }
      var d1;
      ghost var l1;
      if e.EAnd? {
        st, d1, l1 := GoIfTrue(d, t, f, s0, n0, e.l);
      } else {
        st, d1, l1 := GoIfFalse(d, t, f, s0, n0, e.l);
      }
      if st.Okay? {
        st, d, t, f := CompileSecond(e, d1, l1, s0, n0);
      }
    }

    method CompileSecond(e: Expr, d1: Desc, ghost l1: seq<nat>, ghost s0: State, ghost n0: nat)
      returns (st: Status, d: Desc, ghost t: seq<nat>, ghost f: seq<nat>)
      requires e.EAnd? || e.EOr?
      requires if e.EAnd? then Gated(s0, n0, d1.f, l1, true, e.l) else Gated(s0, n0, d1.t, l1, false, e.l)
      requires LocalsBelow(e.r, nactvar) && LocalsBelow(e.r, n0)
      modifies `code, `jpc, `jlist, `pend, `k, `h, `lasttarget, `freereg, `maxstacksize
      ensures st.Okay? ==> Compiled(s0, n0, d, t, f, e)
      ensures st.Error? ==> Exhausted(st)
      decreases e, 0
    {
      hide *;
      GatedFacts(s0, n0, if e.EAnd? then d1.f else d1.t, l1, e.EAnd?, e.l);
      StIs();
      ghost var s1 := St();
      ValidHere();
      st, d, t, f := CompileExpr(e.r);
      if st.Okay? {
        if e.EAnd? {
          st, d := PosfixAnd(d1, d, l1, t, f, s0, s1, n0, e.l, e.r);
          f := f + l1;
        } else {
          st, d := PosfixOr(d1, d, l1, t, f, s0, s1, n0, e.l, e.r);
          t := t + l1;
        }
      }
    }

    lemma ValidHere()
      requires ValidCode() && np <= nactvar <= freereg <= maxstacksize < MAXSTACK
      ensures Valid()
    {
    }

    method CompileCompare(e: Expr) returns (st: Status, d: Desc)
      requires Valid() && LocalsBelow(e, nactvar) && e.ECompare?
      modifies `code, `jpc, `jlist, `pend, `k, `h, `lasttarget, `freereg, `maxstacksize
      ensures st.Okay? ==> Compiled(old(St()), old(freereg), d, [], [], e)
      ensures st.Error? ==> Exhausted(st)
      decreases e, 0
    {
      BelowMore(e.r, nactvar, freereg);
      assert LocalsBelow(e.l, nactvar) && LocalsBelow(e.r, nactvar);
      assert Wf(St());
      hide *;
      ghost var s0, n0 := St(), freereg;
      ghost var t, f;
      st, d, t, f := CompileExpr(e.l);
      if st.Okay? {
        var d1, x;
        CompiledParts(s0, n0, d, t, f, e.l);
        st, d1, x := Exp2RK(d, t, f, s0, n0, e.l);
        if st.Okay? {
          ghost var s1, n1 := St(), freereg;
          StIs();
          OperandFirst(x, n0);
          ValidHere();
          var d2;
          st, d2, t, f := CompileExpr(e.r);
          if st.Okay? {
            st, d := PosfixCompare(e.op, d1, d2, t, f, s0, n0, e.l, s1, n1, e.r);
          }
        }
      }
    }

    lemma OperandFirst(x: nat, n0: nat)
      requires OperandHere(x, n0) && nactvar <= n0
      ensures FirstHere(St(), x, n0, freereg) && n0 <= freereg
    {
    }

    // ----- statements -----

    /** A function with `np` parameters, before its first statement. */
    constructor (np: nat, ghost vm: Vm)
      requires np < MAXSTACK
      ensures Valid() && this.np == np && this.vm == vm && nactvar == freereg == np
      ensures code == [] && pend == {} && jlist == []
    {
      this.np, this.vm := np, vm;
      k, h, code := [], map[], [];
      jpc, lasttarget := NO_JUMP, -1;
      freereg, nactvar := np, np;
      maxstacksize := if np < 2 then 2 else np;
      pend, jlist := {}, [];
    }

    /** local x = e. */
    method LocalStat(e: Expr) returns (st: Status)
      requires Valid() && freereg == nactvar && LocalsBelow(e, nactvar)
      modifies this
      ensures st.Okay? ==> Valid() && freereg == nactvar == Active(SLocal(e), old(nactvar))
      ensures st.Okay? ==> Executes(vm, np, old(St()), St(), SLocal(e), old(nactvar)) && Extends(old(St()), St(), {})
      ensures st.Error? ==> Exhausted(st)
    {
      hide *;
      ghost var s0, n0 := St(), nactvar;
      ValidIs();
      var d;
      ghost var t, f;
      st, d, t, f := CompileExpr(e);
      if st.Okay? {
        st, d := Exp2NextReg(d, t, f, s0, n0, e);
        if st.Okay? {
          ComputesExecutes(vm, np, s0, St(), n0, e, n0);
          ActiveIs(SLocal(e), n0);
          nactvar := nactvar + 1;
          StIs();
          ValidHere();
        }
      }
    }

    lemma ValidIs()
      requires Valid()
      ensures ValidCode() && np <= nactvar <= freereg <= maxstacksize < MAXSTACK
    {
    }

    lemma ActiveIs(s: Stmt, n0: nat)
      ensures s.SLocal? ==> Active(s, n0) == n0 + 1
      ensures s.SLocalNil? ==> Active(s, n0) == n0 + s.n
      ensures s.SAssign? ==> Active(s, n0) == n0
    {
    }

    /** local x1, ..., xn. */
    method LocalNilStat(n: nat) returns (st: Status)
      requires Valid() && freereg == nactvar && n > 0
      modifies this
      ensures st.Okay? ==> Valid() && freereg == nactvar == Active(SLocalNil(n), old(nactvar))
      ensures st.Okay? ==> Executes(vm, np, old(St()), St(), SLocalNil(n), old(nactvar)) && Extends(old(St()), St(), {})
      ensures st.Error? ==> ExhaustedFor(st, n)
    {
      hide *;
      ghost var s0 := St();
      ValidIs();
      var reg := freereg;
      st := ReserveRegs(n);
      if st.Okay? {
        st := LoadNilRegs(reg, n);
        NilsExhausted(st, n);
        if st.Okay? {
          NilsExecute(vm, np, s0, St(), reg, n);
          ActiveIs(SLocalNil(n), reg);
          nactvar := nactvar + n;
          StIs();
          ValidHere();
        }
      }
    }

    /** x = e, through luaK_storevar. */
    method AssignStat(reg: nat, e: Expr) returns (st: Status)
      requires Valid() && freereg == nactvar && LocalsBelow(e, nactvar) && reg < nactvar
      modifies this
      ensures st.Okay? ==> Valid() && freereg == nactvar == Active(SAssign(reg, e), old(nactvar))
      ensures st.Okay? ==>
        Executes(vm, np, old(St()), St(), SAssign(reg, e), old(nactvar)) && Extends(old(St()), St(), {})
      ensures st.Error? ==> Exhausted(st)
    {
      hide *;
      ghost var s0, n0 := St(), nactvar;
      ValidIs();
      var d;
      ghost var t, f;
      st, d, t, f := CompileExpr(e);
      if st.Okay? {
        CompiledParts(s0, n0, d, t, f, e);
        FreeExp(d);
        st, d := Exp2Reg(d, reg, t, f, s0, n0, e);
        if st.Okay? {
          ComputesExecutes(vm, np, s0, St(), reg, e, n0);
          ActiveIs(SAssign(reg, e), n0);
          freereg := nactvar;
          StIs();
          ValidHere();
        }
      }
    }

    method CompileStmt(s: Stmt) returns (st: Status)
      requires Valid() && freereg == nactvar && StmtOk(s, nactvar)
      modifies this
      ensures st.Okay? ==> Valid() && freereg == nactvar == Active(s, old(nactvar))
      ensures st.Okay? ==> Executes(vm, np, old(St()), St(), s, old(nactvar)) && Extends(old(St()), St(), {})
      ensures st.Error? ==> ExhaustedFor(st, Asked(s))
    {
      match s
      case SLocal(e) => st := LocalStat(e);
      case SLocalNil(n) => st := LocalNilStat(n);
      case SAssign(reg, e) => st := AssignStat(reg, e);
    }

    /** The body of a function: its statements and the final return. Nothing is
        left pending, and the code does what the statements say. */
    method CompileBody(stmts: seq<Stmt>) returns (st: Status)
      requires Valid() && freereg == nactvar == np && code == [] && pend == {}
      requires AllOk(stmts, np)
      modifies this
      ensures st.Okay? ==> pend == {} && nactvar == ActiveAll(stmts, np)
      ensures st.Okay? ==> forall i :: 0 <= i < |code| ==> !(code[i].TestSet? && code[i].a == NO_REG)
      ensures st.Okay? ==> forall r :: Clean(r, np) ==>
        RunsTo(ExecAll(vm, stmts, np, r), ActiveAll(stmts, np), Run(vm, k, code, {}, 0, r))
      ensures st.Error? ==> ExhaustedFor(st, MostAsked(stmts))
    {
      ExecutesNone(vm, np, St());
      assert stmts[..0] == [];
      assert Waiting();
      hide *;
      ActiveNone(np);
      var i := 0;
      while i < |stmts|
        invariant 0 <= i <= |stmts|
        invariant Valid() && freereg == nactvar == ActiveAll(stmts[..i], np)
        invariant ExecutesAll(vm, np, St(), stmts[..i]) && Waiting()
      {
        ghost var s0 := St();
        PrefixOk(stmts, i, np);
        WaitingIs();
        st := CompileStmt(stmts[i]);
        if st.Error? {
          AskedAtMost(stmts, i);
          MoreExhausted(st, Asked(stmts[i]), MostAsked(stmts));
          return;
        }
        ExecutesOne(vm, np, s0, stmts[..i], St(), stmts[i]);
        assert stmts[..i] + [stmts[i]] == stmts[..i + 1];
        StillWaiting(s0);
        i := i + 1;
      }
      assert stmts[..i] == stmts;
      st := FinalReturn(stmts);
      AskedSome(stmts);
      NilsExhausted(st, MostAsked(stmts));
    }

    /** All pending jumps lead to here. */
    ghost predicate Waiting()
      reads `pend, `jlist
    {
      true <==> (forall p :: p in pend ==> p in jlist)
    }

    lemma WaitingIs()
      requires Waiting()
      ensures forall p :: p in pend ==> p in jlist
    {
    }

    lemma StillWaiting(s0: State)
      requires Extends(s0, St(), {}) && forall p :: p in s0.pend ==> p in s0.jpc
      ensures Waiting()
    {
    }

    lemma ActiveNone(n: nat)
      ensures ActiveAll([], n) == n
    {
    }

    lemma PrefixOk(stmts: seq<Stmt>, i: nat, nact: nat)
      requires AllOk(stmts, nact) && i < |stmts|
      ensures StmtOk(stmts[i], ActiveAll(stmts[..i], nact))
      decreases |stmts|
    {
      if i < |stmts| - 1 {
        PrefixOk(stmts[..|stmts| - 1], i, nact);
        assert stmts[..|stmts| - 1][..i] == stmts[..i];
      }
    }

    method FinalReturn(stmts: seq<Stmt>) returns (st: Status)
      requires Valid() && Waiting() && ExecutesAll(vm, np, St(), stmts)
      modifies `code, `jpc, `jlist, `pend
      ensures st.Okay? ==> pend == {}
      ensures st.Okay? ==> forall i :: 0 <= i < |code| ==> !(code[i].TestSet? && code[i].a == NO_REG)
      ensures st.Okay? ==> forall r :: Clean(r, np) ==>
        RunsTo(ExecAll(vm, stmts, np, r), ActiveAll(stmts, np), Run(vm, k, code, {}, 0, r))
      ensures st.Error? ==> Exhausted(st)
    {
      ReturnRuns(vm, np, St(), stmts);
      ReturnRegisters(St());
      st := CodeInstr(Return);
    }
  }
}
