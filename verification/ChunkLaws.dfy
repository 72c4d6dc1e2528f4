/** Precompiled chunks byte by byte: where each part of a prototype is, and what
    is no chunk. */
module ChunkLaws {
  import opened Wrappers
  import opened Chunks

  /** Four and eight bytes, the low one first. */
  function Four(n: nat): Bytes {
    [n % 256, n / 0x100 % 256, n / 0x1_0000 % 256, n / 0x100_0000 % 256]
  }

  function Eight(n: nat): Bytes {
    Four(n) + Four(n / 0x1_0000_0000)
  }

  lemma FourIs(n: nat)
    ensures Le(n, 4) == Four(n)
  {
    var a, b, c := n / 256, n / 256 / 256, n / 256 / 256 / 256;
    assert b == n / 0x1_0000 && c == n / 0x100_0000;
    assert Le(c, 1) == [c % 256] + Le(c / 256, 0);
    assert Le(b, 2) == [b % 256] + Le(c, 1);
    assert Le(a, 3) == [a % 256] + Le(b, 2);
    assert Le(n, 4) == [n % 256] + Le(a, 3);
  }

  lemma EightIs(n: nat)
    ensures Le(n, 8) == Eight(n)
  {
    LeSplit(n);
    FourIs(n);
    FourIs(n / 0x1_0000_0000);
  }

  /** Eight bytes are four of the low half and four of the high half. */
  lemma LeSplit(n: nat)
    ensures Le(n, 8) == Le(n, 4) + Le(n / 0x1_0000_0000, 4)
  {
    var a, b, c, d := n / 256, n / 256 / 256, n / 256 / 256 / 256, n / 256 / 256 / 256 / 256;
    assert d == n / 0x1_0000_0000;
    assert Le(n, 8) == [n % 256] + Le(a, 7);
    assert Le(a, 7) == [a % 256] + Le(b, 6);
    assert Le(b, 6) == [b % 256] + Le(c, 5);
    assert Le(c, 5) == [c % 256] + Le(d, 4);
    assert Le(c, 1) == [c % 256] + Le(d, 0);
    assert Le(b, 2) == [b % 256] + Le(c, 1);
    assert Le(a, 3) == [a % 256] + Le(b, 2);
    assert Le(n, 4) == [n % 256] + Le(a, 3);
  }

  /** A size with the zero at the end, and the bytes with that zero; nothing but a
      zero size stands for a null string. */
  lemma StringLayout(s: Option<Bytes>)
    ensures DumpString(s) == if s.None? then Eight(0) else Eight(|s.value| + 1) + s.value + [0]
  {
    EightIs(0);
    if s.Some? {
      EightIs(|s.value| + 1);
    }
  }

  /** A type and a value. */
  lemma ConstantLayout(c: Constant)
    ensures DumpConstant(c) == match c
      case NilK => [0]
      case BoolK(b) => [1, if b then 1 else 0]
      case NumberK(bits) => [3] + Eight(bits)
      case StringK(s) => [4] + DumpString(s)
  {
    if c.NumberK? {
      EightIs(c.bits);
    }
  }

  /** Parts one after the other. */
  function Concat(parts: seq<Bytes>): Bytes {
    if parts == [] then [] else Concat(parts[..|parts| - 1]) + parts[|parts| - 1]
  }

  function Ints(ws: seq<nat>): seq<Bytes> {
    seq(|ws|, i requires 0 <= i < |ws| => Four(ws[i]))
  }

  lemma {:induction false} WordsLayout(ws: seq<nat>)
    ensures DumpWords(ws) == Concat(Ints(ws))
    decreases |ws|
  {
    if ws != [] {
      var front := ws[..|ws| - 1];
      WordsLayout(front);
      FourIs(ws[|ws| - 1]);
      assert Ints(ws)[..|ws| - 1] == Ints(front);
    }
  }

  lemma {:induction false} ConstantsLayout(ks: seq<Constant>)
    ensures DumpConstants(ks) == Concat(Constants(ks))
    decreases |ks|
  {
    hide DumpConstant;
    if ks != [] {
      var front := ks[..|ks| - 1];
      ConstantsLayout(front);
      assert Constants(ks)[..|ks| - 1] == Constants(front);
    }
  }

  lemma {:induction false} NamesLayout(vs: seq<Option<Bytes>>)
    ensures DumpStrings(vs) == Concat(Names(vs))
    decreases |vs|
  {
    hide DumpString;
    if vs != [] {
      var front := vs[..|vs| - 1];
      NamesLayout(front);
      assert Names(vs)[..|vs| - 1] == Names(front);
    }
  }

  lemma {:induction false} LocVarsLayout(vs: seq<LocVar>)
    ensures DumpLocVars(vs) == Concat(LocVars(vs))
    decreases |vs|
  {
    if vs != [] {
      var front, last := vs[..|vs| - 1], vs[|vs| - 1];
      LocVarsLayout(front);
      FourIs(last.startpc);
      FourIs(last.endpc);
      assert DumpLocVar(last) == LocVars(vs)[|vs| - 1];
      hide Four, DumpString, Le, DumpLocVar;
      assert LocVars(vs)[..|vs| - 1] == LocVars(front);
    }
  }

  lemma {:induction false} ProtosLayout(f: Proto, n: nat, parts: seq<Bytes>)
    requires Fits(f) && n <= |f.p| && |parts| == n
    requires forall i :: 0 <= i < n ==> parts[i] == DumpFunction(f.p[i], f.source)
    ensures DumpProtos(f, n) == Concat(parts)
    decreases n
  {
    hide DumpFunction;
    if n > 0 {
      ProtosLayout(f, n - 1, parts[..n - 1]);
    }
  }

  /** The parts of constants, local variables and names. */
  function Constants(ks: seq<Constant>): seq<Bytes> {
    seq(|ks|, i requires 0 <= i < |ks| => DumpConstant(ks[i]))
  }

  function LocVars(vs: seq<LocVar>): seq<Bytes> {
    seq(|vs|, i requires 0 <= i < |vs| => DumpString(vs[i].varname) + (Four(vs[i].startpc) + Four(vs[i].endpc)))
  }

  function Names(vs: seq<Option<Bytes>>): seq<Bytes> {
    seq(|vs|, i requires 0 <= i < |vs| => DumpString(vs[i]))
  }

  /** A function starts with its source, unless it is the parent's, two lines and
      four bytes; then come, each with its number before it, the instructions and
      the constants. */
  lemma HeadLayout(f: Proto, parent: Option<Bytes>)
    requires Fits(f)
    ensures DumpHead(f, parent) ==
      DumpString(if f.source == parent then None else f.source)
      + (Four(f.linedefined) + (Four(f.lastlinedefined)
      + ([f.nups, f.numparams, f.isVararg, f.maxstacksize]
      + (Four(|f.code|) + (Concat(Ints(f.code)) + (Four(|f.k|) + Concat(Constants(f.k))))))))
  {
    WordsLayout(f.code);
    ConstantsLayout(f.k);
    FourIs(f.linedefined);
    FourIs(f.lastlinedefined);
    FourIs(|f.code|);
    FourIs(|f.k|);
    hide Four, Concat, Ints, Constants, DumpString, DumpWords, DumpConstants, Le, Fits;
  }

  /** It ends with the lines of the instructions, the local variables and the names
      of the upvalues. */
  lemma DebugLayout(f: Proto)
    requires Fits(f)
    ensures DumpDebug(f) == Four(|f.lineinfo|) + (Concat(Ints(f.lineinfo))
      + (Four(|f.locvars|) + (Concat(LocVars(f.locvars)) + (Four(|f.upvalues|) + Concat(Names(f.upvalues))))))
  {
    WordsLayout(f.lineinfo);
    LocVarsLayout(f.locvars);
    NamesLayout(f.upvalues);
    FourIs(|f.lineinfo|);
    FourIs(|f.locvars|);
    FourIs(|f.upvalues|);
    hide Four, Concat, Ints, LocVars, Names, DumpString, DumpWords, DumpLocVars, DumpStrings, Le, Fits;
  }

  /** Between them are the nested functions, whose parent is this one. */
  lemma FunctionLayout(f: Proto, parent: Option<Bytes>, protos: seq<Bytes>)
    requires Fits(f) && |protos| == |f.p|
    requires forall i :: 0 <= i < |f.p| ==> protos[i] == DumpFunction(f.p[i], f.source)
    ensures DumpFunction(f, parent) == DumpHead(f, parent) + (Four(|f.p|) + (Concat(protos) + DumpDebug(f)))
  {
    ProtosLayout(f, |f.p|, protos);
    FourIs(|f.p|);
    hide Four, Concat, DumpProtos, DumpHead, DumpDebug, Fits;
  }

  /** A chunk starts with the signature and the sizes of its numbers. */
  lemma ChunkLayout(f: Proto)
    requires Fits(f)
    ensures Dump(f) == [27, 76, 117, 97, 0x51, 0, 1, 4, 8, 4, 8, 0] + DumpFunction(f, None)
  {
  }

  // ----- what is no chunk -----

  /** Another header is an error. */
  lemma BadHeader(check: Proto -> bool, s: Bytes)
    requires |s| >= 12 && s[..12] != [27, 76, 117, 97, 0x51, 0, 1, 4, 8, 4, 8, 0]
    ensures Undump(check, s) == Bad("bad header")
  {
  }

  lemma TooShort(check: Proto -> bool, s: Bytes)
    requires |s| < 12
    ensures Undump(check, s) == Bad("unexpected end")
  {
  }

  /** Integers with the highest bit are an error, and so are unknown types. */
  lemma BadParts(s: Bytes, rest: Bytes)
    ensures |s| == 4 && s[3] >= 128 ==> LoadInt(s + rest) == Bad("bad integer")
    ensures |s| == 1 && s[0] !in {0, 1, 3, 4} ==> LoadConstant(s + rest) == Bad("bad constant")
    ensures |s| == 2 && s[0] == 1 ==> LoadConstant(s + rest) == Loaded(BoolK(s[1] != 0), rest)
  {
    if |s| == 4 && s[3] >= 128 {
      BlockBack(s, rest);
      assert s == [s[0]] + ([s[1]] + ([s[2]] + [s[3]]));
      assert s[1..][1..] == s[2..] && s[2..][1..] == s[3..] && s[3..][1..] == [];
      assert FromLe([]) == 0;
      assert FromLe(s[3..]) == s[3] as int;
      assert FromLe(s[2..]) == s[2] as int + 256 * FromLe(s[3..]);
      assert FromLe(s[1..]) == s[1] as int + 256 * FromLe(s[2..]);
      assert FromLe(s) == s[0] as int + 256 * FromLe(s[1..]);
    }
    if |s| == 1 {
      BlockBack(s, rest);
    }
    if |s| == 2 && s[0] == 1 {
      assert s + rest == [1] + ([s[1]] + rest);
      BlockBack([1], [s[1]] + rest);
      BlockBack([s[1]], rest);
    }
  }
}
