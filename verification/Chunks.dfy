/** Precompiled chunks: the bytes that ldump.c writes for a function prototype,
    and what lundump.c makes of bytes. */
module Chunks {
  import opened Wrappers
  import opened Limits

  type Byte = x: int | 0 <= x < 256

  type Bytes = seq<Byte>

  /** A constant; a number is known by its 64 bits. */
  datatype Constant = NilK | BoolK(b: bool) | NumberK(bits: nat) | StringK(s: Option<Bytes>)

  datatype LocVar = LocVar(varname: Option<Bytes>, startpc: nat, endpc: nat)

  /** A function prototype. Strings may be null. */
  datatype Proto = Proto(
    source: Option<Bytes>,
    linedefined: nat,
    lastlinedefined: nat,
    nups: Byte,
    numparams: Byte,
    isVararg: Byte,
    maxstacksize: Byte,
    code: seq<nat>,
    k: seq<Constant>,
    p: seq<Proto>,
    lineinfo: seq<nat>,
    locvars: seq<LocVar>,
    upvalues: seq<Option<Bytes>>)

  // ----- integers -----

  /** The `k` bytes of an integer, the low one first. */
  function Le(n: nat, k: nat): (s: Bytes)
    ensures |s| == k
  {
    if k == 0 then [] else [n % 256] + Le(n / 256, k - 1)
  }

  function FromLe(s: Bytes): nat {
    if s == [] then 0 else s[0] + 256 * FromLe(s[1..])
  }

  function Pow256(k: nat): nat {
    if k == 0 then 1 else 256 * Pow256(k - 1)
  }

  lemma {:induction false} LeBack(n: nat, k: nat)
    requires n < Pow256(k)
    ensures FromLe(Le(n, k)) == n
    decreases k
  {
    if k > 0 {
      assert Le(n, k)[1..] == Le(n / 256, k - 1);
      LeBack(n / 256, k - 1);
    }
  }

  /** The int with these four bytes, in two's complement. */
  function ToInt(n: nat): int {
    if n < 0x8000_0000 then n else n - 0x1_0000_0000
  }

  // ----- dumping -----

  function DumpInt(x: nat): Bytes {
    Le(x, 4)
  }

  /** A null string has size zero; others have a zero at their end. */
  function DumpString(s: Option<Bytes>): Bytes {
    if s.None? then Le(0, 8) else Le(|s.value| + 1, 8) + (s.value + [0])
  }

  function DumpWords(ws: seq<nat>): (s: Bytes)
    ensures |s| == 4 * |ws|
  {
    if ws == [] then [] else DumpWords(ws[..|ws| - 1]) + Le(ws[|ws| - 1], 4)
  }

  function DumpConstant(c: Constant): Bytes {
    match c
    case NilK => [0]
    case BoolK(b) => [1] + [if b then 1 else 0]
    case NumberK(bits) => [3] + Le(bits, 8)
    case StringK(s) => [4] + DumpString(s)
  }

  function DumpLocVar(v: LocVar): Bytes
  {
    DumpString(v.varname) + (DumpInt(v.startpc) + DumpInt(v.endpc))
  }

  function DumpConstants(ks: seq<Constant>): Bytes {
    if ks == [] then [] else DumpConstants(ks[..|ks| - 1]) + DumpConstant(ks[|ks| - 1])
  }

  function DumpLocVars(vs: seq<LocVar>): Bytes
  {
    if vs == [] then [] else DumpLocVars(vs[..|vs| - 1]) + DumpLocVar(vs[|vs| - 1])
  }

  function DumpStrings(vs: seq<Option<Bytes>>): Bytes {
    if vs == [] then [] else DumpStrings(vs[..|vs| - 1]) + DumpString(vs[|vs| - 1])
  }

  /** The prototypes whose parts fit their places in a chunk: no negative
      positions, and no more than 2^31 - 1 of anything. */
  predicate Fits(f: Proto)
    decreases f
  {
    && f.linedefined < 0x8000_0000 && f.lastlinedefined < 0x8000_0000
    && StringFits(f.source) && WordsFit(f.code) && WordsFit(f.lineinfo)
    && |f.k| < 0x8000_0000 && (forall i :: 0 <= i < |f.k| ==> ConstantFits(f.k[i]))
    && |f.locvars| < 0x8000_0000 && (forall i :: 0 <= i < |f.locvars| ==> LocVarFits(f.locvars[i]))
    && |f.upvalues| < 0x8000_0000 && (forall i :: 0 <= i < |f.upvalues| ==> StringFits(f.upvalues[i]))
    && |f.p| < 0x8000_0000 && (forall i :: 0 <= i < |f.p| ==> Fits(f.p[i]))
  }

  predicate StringFits(s: Option<Bytes>) {
    s.Some? ==> |s.value| + 1 < Pow256(8)
  }

  predicate WordsFit(ws: seq<nat>) {
    |ws| < 0x8000_0000 && forall i :: 0 <= i < |ws| ==> ws[i] < Pow256(4)
  }

  predicate ConstantFits(c: Constant) {
    (c.NumberK? ==> c.bits < Pow256(8)) && (c.StringK? ==> StringFits(c.s))
  }

  predicate LocVarFits(v: LocVar) {
    StringFits(v.varname) && v.startpc < 0x8000_0000 && v.endpc < 0x8000_0000
  }

  /** The part before the nested functions. A source that is the parent's is not
      repeated. */
  function DumpHead(f: Proto, parent: Option<Bytes>): Bytes
    requires Fits(f)
  {
    DumpString(if f.source == parent then None else f.source)
    + (DumpInt(f.linedefined) + (DumpInt(f.lastlinedefined)
    + ([f.nups, f.numparams, f.isVararg, f.maxstacksize]
    + (DumpInt(|f.code|) + (DumpWords(f.code)
    + (DumpInt(|f.k|) + DumpConstants(f.k)))))))
  }

  function DumpDebug(f: Proto): Bytes
    requires Fits(f)
  {
    DumpInt(|f.lineinfo|) + (DumpWords(f.lineinfo)
    + (DumpInt(|f.locvars|) + (DumpLocVars(f.locvars)
    + (DumpInt(|f.upvalues|) + DumpStrings(f.upvalues)))))
  }

  /** DumpFunction, with debug information. */
  function DumpFunction(f: Proto, parent: Option<Bytes>): Bytes
    requires Fits(f)
    decreases f, 1, 0
  {
    DumpHead(f, parent) + (DumpInt(|f.p|) + (DumpProtos(f, |f.p|) + DumpDebug(f)))
  }

  function DumpProtos(f: Proto, n: nat): Bytes
    requires Fits(f) && n <= |f.p|
    decreases f, 0, n
  {
    if n == 0 then [] else DumpProtos(f, n - 1) + DumpFunction(f.p[n - 1], f.source)
  }

  /** The signature, version 5.1, format 0, little endian, and the sizes of int,
      size_t, Instruction and lua_Number, which is not integral. */
  const HEADER: Bytes := [27, 76, 117, 97, 0x51, 0, 1, 4, 8, 4, 8, 0]

  function Dump(f: Proto): Bytes
    requires Fits(f)
  {
    HEADER + DumpFunction(f, None)
  }

  // ----- loading -----

  /** A value and the bytes left, or why there is none. */
  datatype Loaded<+T> = Loaded(v: T, rest: Bytes) | Bad(why: string) {
    predicate IsFailure() {
      Bad?
    }

    function PropagateFailure<U>(): Loaded<U>
      requires IsFailure()
    {
      Bad(why)
    }

    function Extract(): (T, Bytes)
      requires !IsFailure()
    {
      (v, rest)
    }
  }

  function LoadBlock(s: Bytes, n: nat): (r: Loaded<Bytes>)
    ensures r.Loaded? ==> |r.v| == n && |r.rest| + n == |s|
  {
    if |s| < n then Bad("unexpected end") else Loaded(s[..n], s[n..])
  }

  function LoadInt(s: Bytes): (r: Loaded<nat>)
    ensures r.Loaded? ==> |r.rest| < |s|
  {
    var (b, rest) :- LoadBlock(s, 4);
    var x := ToInt(FromLe(b));
    if x < 0 then Bad("bad integer") else Loaded(x, rest)
  }

  function LoadString(s: Bytes): (r: Loaded<Option<Bytes>>)
    ensures r.Loaded? ==> |r.rest| < |s|
  {
    var (b, rest) :- LoadBlock(s, 8);
    var size := FromLe(b);
    if size == 0 then Loaded(None, rest)
    else
      var (str, rest) :- LoadBlock(rest, size);
      Loaded(Some(str[..size - 1]), rest)
  }

  /** The words of a block. */
  function Words(b: Bytes): (ws: seq<nat>)
    requires |b| % 4 == 0
    ensures |ws| == |b| / 4
  {
    if b == [] then [] else Words(b[..|b| - 4]) + [FromLe(b[|b| - 4..])]
  }

  function LoadWords(s: Bytes): (r: Loaded<seq<nat>>)
    ensures r.Loaded? ==> |r.rest| < |s|
  {
    var (n, rest) :- LoadInt(s);
    var (b, rest) :- LoadBlock(rest, 4 * n);
    Loaded(Words(b), rest)
  }

  function LoadConstant(s: Bytes): (r: Loaded<Constant>)
    ensures r.Loaded? ==> |r.rest| < |s|
  {
    var (t, rest) :- LoadBlock(s, 1);
    if t[0] == 0 then Loaded(NilK, rest)
    else if t[0] == 1 then
      var (b, rest) :- LoadBlock(rest, 1);
      Loaded(BoolK(b[0] != 0), rest)
    else if t[0] == 3 then
      var (b, rest) :- LoadBlock(rest, 8);
      Loaded(NumberK(FromLe(b)), rest)
    else if t[0] == 4 then
      var (str, rest) :- LoadString(rest);
      Loaded(StringK(str), rest)
    else Bad("bad constant")
  }

  function LoadLocVar(s: Bytes): (r: Loaded<LocVar>)
    ensures r.Loaded? ==> |r.rest| < |s|
  {
    var (name, rest) :- LoadString(s);
    var (startpc, rest) :- LoadInt(rest);
    var (endpc, rest) :- LoadInt(rest);
    Loaded(LocVar(name, startpc, endpc), rest)
  }

  /** `n` values of a kind, one after the other. */
  function LoadMany<T>(load: Bytes -> Loaded<T>, s: Bytes, n: nat): (r: Loaded<seq<T>>)
    requires forall t :: load(t).Loaded? ==> |load(t).rest| < |t|
    ensures r.Loaded? ==> |r.v| == n && |r.rest| <= |s|
  {
    if n == 0 then Loaded([], s)
    else
      var (vs, rest) :- LoadMany(load, s, n - 1);
      var (v, rest) :- load(rest);
      Loaded(vs + [v], rest)
  }

  function LoadConstants(s: Bytes): (r: Loaded<seq<Constant>>)
    ensures r.Loaded? ==> |r.rest| < |s|
  {
    var (n, rest) :- LoadInt(s);
    LoadMany(LoadConstant, rest, n)
  }

  /** The prototype so far: no nested functions and no debug information yet. */
  function LoadHead(s: Bytes, parent: Option<Bytes>): (r: Loaded<Proto>)
    ensures r.Loaded? ==> |r.rest| < |s|
  {
    var (source, rest) :- LoadString(s);
    var (linedefined, rest) :- LoadInt(rest);
    var (lastlinedefined, rest) :- LoadInt(rest);
    var (b, rest) :- LoadBlock(rest, 4);
    var (code, rest) :- LoadWords(rest);
    var (k, rest) :- LoadConstants(rest);
    Loaded(Proto(if source.None? then parent else source, linedefined, lastlinedefined, b[0], b[1], b[2], b[3],
                 code, k, [], [], [], []), rest)
  }

  /** The debug information of `f`. */
  function LoadDebug(s: Bytes, f: Proto): (r: Loaded<Proto>)
    ensures r.Loaded? ==> |r.rest| < |s|
  {
    var (lineinfo, rest) :- LoadWords(s);
    var (n, rest) :- LoadInt(rest);
    var (locvars, rest) :- LoadMany(LoadLocVar, rest, n);
    var (n, rest) :- LoadInt(rest);
    var (upvalues, rest) :- LoadMany(LoadString, rest, n);
    Loaded(f.(lineinfo := lineinfo, locvars := locvars, upvalues := upvalues), rest)
  }

  /** LoadFunction at nesting `level`; `check` is the bytecode checker. */
  function LoadFunction(check: Proto -> bool, s: Bytes, parent: Option<Bytes>, level: nat): (r: Loaded<Proto>)
    ensures r.Loaded? ==> |r.rest| < |s|
    decreases |s|, 0, 0
  {
    if level >= MAXCCALLS then Bad("code too deep")
    else
      var (head, rest) :- LoadHead(s, parent);
      var (n, rest) :- LoadInt(rest);
      var (p, rest) :- LoadProtos(check, rest, n, head.source, level + 1);
      var (f, rest) :- LoadDebug(rest, head.(p := p));
      if check(f) then Loaded(f, rest) else Bad("bad code")
  }

  function LoadProtos(check: Proto -> bool, s: Bytes, n: nat, source: Option<Bytes>,
      level: nat): (r: Loaded<seq<Proto>>)
    ensures r.Loaded? ==> |r.v| == n && |r.rest| <= |s|
    decreases |s|, 1, n
  {
    if n == 0 then Loaded([], s)
    else
      var (vs, rest) :- LoadProtos(check, s, n - 1, source, level);
      var (v, rest) :- LoadFunction(check, rest, source, level);
      Loaded(vs + [v], rest)
  }

  const UNKNOWN: Option<Bytes> := Some([61, 63])

  /** luaU_undump. A chunk without a source is from "=?". */
  function Undump(check: Proto -> bool, s: Bytes): Loaded<Proto> {
    var (h, rest) :- LoadBlock(s, |HEADER|);
    if h != HEADER then Bad("bad header") else LoadFunction(check, rest, UNKNOWN, 0)
  }

  // ----- the round trip -----

  lemma BlockBack(b: Bytes, rest: Bytes)
    ensures LoadBlock(b + rest, |b|) == Loaded(b, rest)
  {
    assert (b + rest)[..|b|] == b && (b + rest)[|b|..] == rest;
  }

  lemma IntBack(x: nat, rest: Bytes)
    requires x < 0x8000_0000
    ensures LoadInt(DumpInt(x) + rest) == Loaded(x, rest)
  {
    assert Pow256(4) == 0x1_0000_0000;
    LeBack(x, 4);
    BlockBack(DumpInt(x), rest);
  }

  lemma StringBack(s: Option<Bytes>, rest: Bytes)
    requires StringFits(s)
    ensures LoadString(DumpString(s) + rest) == Loaded(s, rest)
  {
    if s.None? {
      LeBack(0, 8);
      BlockBack(Le(0, 8), rest);
    } else {
      var n, b := |s.value| + 1, s.value + [0];
      LeBack(n, 8);
      assert DumpString(s) + rest == Le(n, 8) + (b + rest);
      BlockBack(Le(n, 8), b + rest);
      BlockBack(b, rest);
      assert b[..n - 1] == s.value;
    }
  }

  lemma {:induction false} WordsBack(ws: seq<nat>)
    requires forall i :: 0 <= i < |ws| ==> ws[i] < Pow256(4)
    ensures Words(DumpWords(ws)) == ws
    decreases |ws|
  {
    if ws != [] {
      var front, last := ws[..|ws| - 1], ws[|ws| - 1];
      var b := DumpWords(ws);
      assert b[..|b| - 4] == DumpWords(front) && b[|b| - 4..] == Le(last, 4);
      WordsBack(front);
      LeBack(last, 4);
    }
  }

  lemma LoadWordsBack(ws: seq<nat>, rest: Bytes)
    requires WordsFit(ws)
    ensures LoadWords(DumpInt(|ws|) + (DumpWords(ws) + rest)) == Loaded(ws, rest)
  {
    IntBack(|ws|, DumpWords(ws) + rest);
    BlockBack(DumpWords(ws), rest);
    WordsBack(ws);
  }

  lemma ConstantBack(c: Constant, rest: Bytes)
    requires ConstantFits(c)
    ensures LoadConstant(DumpConstant(c) + rest) == Loaded(c, rest)
  {
    hide Le, FromLe, DumpString, LoadString, LoadBlock;
    match c {
      case NilK => BlockBack([0], rest);
      case BoolK(b) =>
        var v: Bytes := [if b then 1 else 0];
        TagBack(1, v, rest);
        BlockBack(v, rest);
      case NumberK(bits) =>
        TagBack(3, Le(bits, 8), rest);
        BlockBack(Le(bits, 8), rest);
        LeBack(bits, 8);
      case StringK(s) =>
        TagBack(4, DumpString(s), rest);
        StringBack(s, rest);
    }
  }

  lemma TagBack(t: Byte, b: Bytes, rest: Bytes)
    ensures LoadBlock([t] + b + rest, 1) == Loaded([t], b + rest)
  {
    assert [t] + b + rest == [t] + (b + rest);
    BlockBack([t], b + rest);
  }

  lemma ManyNext<T>(load: Bytes -> Loaded<T>, s: Bytes, n: nat, vs: seq<T>, mid: Bytes, v: T, rest: Bytes)
    requires forall t :: load(t).Loaded? ==> |load(t).rest| < |t|
    requires LoadMany(load, s, n) == Loaded(vs, mid) && load(mid) == Loaded(v, rest)
    ensures LoadMany(load, s, n + 1) == Loaded(vs + [v], rest)
  {
  }

  lemma LocVarBack(v: LocVar, rest: Bytes)
    requires LocVarFits(v)
    ensures LoadLocVar(DumpLocVar(v) + rest) == Loaded(v, rest)
  {
    var a, b, c := DumpString(v.varname), DumpInt(v.startpc), DumpInt(v.endpc);
    assert DumpLocVar(v) + rest == a + (b + (c + rest));
    StringBack(v.varname, b + (c + rest));
    IntBack(v.startpc, c + rest);
    IntBack(v.endpc, rest);
  }

  lemma {:induction false} ConstantsBack(ks: seq<Constant>, rest: Bytes)
    requires forall i :: 0 <= i < |ks| ==> ConstantFits(ks[i])
    ensures LoadMany(LoadConstant, DumpConstants(ks) + rest, |ks|) == Loaded(ks, rest)
    decreases |ks|
  {
    hide LoadConstant, DumpConstant, Le;
    if ks == [] {
      assert DumpConstants(ks) + rest == rest;
    } else {
      var front, last := ks[..|ks| - 1], ks[|ks| - 1];
      assert DumpConstants(ks) + rest == DumpConstants(front) + (DumpConstant(last) + rest) && front + [last] == ks;
      ConstantsBack(front, DumpConstant(last) + rest);
      ConstantBack(last, rest);
      ManyNext(LoadConstant, DumpConstants(ks) + rest, |front|, front, DumpConstant(last) + rest, last, rest);
    }
  }

  lemma {:induction false} LocVarsBack(vs: seq<LocVar>, rest: Bytes)
    requires forall i :: 0 <= i < |vs| ==> LocVarFits(vs[i])
    ensures LoadMany(LoadLocVar, DumpLocVars(vs) + rest, |vs|) == Loaded(vs, rest)
    decreases |vs|
  {
    hide LoadLocVar, DumpLocVar, Le;
    if vs == [] {
      assert DumpLocVars(vs) + rest == rest;
    } else {
      var front, last := vs[..|vs| - 1], vs[|vs| - 1];
      assert DumpLocVars(vs) + rest == DumpLocVars(front) + (DumpLocVar(last) + rest) && front + [last] == vs;
      LocVarsBack(front, DumpLocVar(last) + rest);
      LocVarBack(last, rest);
      ManyNext(LoadLocVar, DumpLocVars(vs) + rest, |front|, front, DumpLocVar(last) + rest, last, rest);
    }
  }

  lemma {:induction false} StringsBack(vs: seq<Option<Bytes>>, rest: Bytes)
    requires forall i :: 0 <= i < |vs| ==> StringFits(vs[i])
    ensures LoadMany(LoadString, DumpStrings(vs) + rest, |vs|) == Loaded(vs, rest)
    decreases |vs|
  {
    hide LoadString, DumpString, Le;
    if vs == [] {
      assert DumpStrings(vs) + rest == rest;
    } else {
      var front, last := vs[..|vs| - 1], vs[|vs| - 1];
      assert DumpStrings(vs) + rest == DumpStrings(front) + (DumpString(last) + rest) && front + [last] == vs;
      StringsBack(front, DumpString(last) + rest);
      StringBack(last, rest);
      ManyNext(LoadString, DumpStrings(vs) + rest, |front|, front, DumpString(last) + rest, last, rest);
    }
  }

  function SourceOf(f: Proto, parent: Option<Bytes>): Option<Bytes> {
    if f.source.None? then parent else f.source
  }

  /** What loading makes of a prototype: a null source is the parent's. */
  function Filled(f: Proto, parent: Option<Bytes>): Proto
    decreases f, 1, 0
  {
    f.(source := SourceOf(f, parent), p := FilledAll(f, SourceOf(f, parent), |f.p|))
  }

  function FilledAll(f: Proto, source: Option<Bytes>, n: nat): (p: seq<Proto>)
    requires n <= |f.p|
    ensures |p| == n
    decreases f, 0, n
  {
    if n == 0 then [] else FilledAll(f, source, n - 1) + [Filled(f.p[n - 1], source)]
  }

  function Depth(f: Proto): nat
    decreases f, 1, 0
  {
    1 + DeepestOf(f, |f.p|)
  }

  function DeepestOf(f: Proto, n: nat): nat
    requires n <= |f.p|
    decreases f, 0, n
  {
    if n == 0 then 0
    else if Depth(f.p[n - 1]) > DeepestOf(f, n - 1) then Depth(f.p[n - 1]) else DeepestOf(f, n - 1)
  }

  /** The checker accepts the function and all nested ones. */
  predicate Checked(check: Proto -> bool, f: Proto)
    decreases f
  {
    check(f) && forall i :: 0 <= i < |f.p| ==> Checked(check, f.p[i])
  }

  lemma HeadBack(f: Proto, parent: Option<Bytes>, known: Option<Bytes>, rest: Bytes)
    requires Fits(f) && (parent == known || parent == None)
    ensures LoadHead(DumpHead(f, parent) + rest, known) == Loaded(
      f.(source := SourceOf(f, known), p := [], lineinfo := [], locvars := [], upvalues := []), rest)
  {
    hide LoadString, LoadInt, LoadBlock, LoadWords, LoadConstants, DumpString, DumpInt, DumpWords, DumpConstants;
    var name := if f.source == parent then None else f.source;
    var r5 := DumpInt(|f.k|) + (DumpConstants(f.k) + rest);
    var r4 := DumpInt(|f.code|) + (DumpWords(f.code) + r5);
    var bytes := [f.nups, f.numparams, f.isVararg, f.maxstacksize];
    var r3 := bytes + r4;
    var r1 := DumpInt(f.linedefined) + (DumpInt(f.lastlinedefined) + r3);
    HeadBytes(f, parent, rest);
    StringBack(name, r1);
    IntBack(f.linedefined, DumpInt(f.lastlinedefined) + r3);
    IntBack(f.lastlinedefined, r3);
    BlockBack(bytes, r4);
    LoadWordsBack(f.code, r5);
    LoadConstantsBack(f.k, rest);
  }

  lemma HeadBytes(f: Proto, parent: Option<Bytes>, rest: Bytes)
    requires Fits(f)
    ensures DumpHead(f, parent) + rest ==
      DumpString(if f.source == parent then None else f.source) + (DumpInt(f.linedefined) + (DumpInt(f.lastlinedefined)
      + ([f.nups, f.numparams, f.isVararg, f.maxstacksize] + (DumpInt(|f.code|) + (DumpWords(f.code)
      + (DumpInt(|f.k|) + (DumpConstants(f.k) + rest)))))))
  {
    hide DumpString, DumpInt, DumpWords, DumpConstants;
    Joined(DumpString(if f.source == parent then None else f.source), DumpInt(f.linedefined), DumpInt(f.lastlinedefined),
           [f.nups, f.numparams, f.isVararg, f.maxstacksize], DumpInt(|f.code|), DumpWords(f.code), DumpInt(|f.k|),
           DumpConstants(f.k), rest);
  }

  lemma Joined(a: Bytes, b: Bytes, c: Bytes, d: Bytes, e: Bytes, f: Bytes, g: Bytes, h: Bytes, rest: Bytes)
    ensures a + (b + (c + (d + (e + (f + (g + h)))))) + rest == a + (b + (c + (d + (e + (f + (g + (h + rest)))))))
  {
    var e1 := e + (f + (g + h));
    assert e1 + rest == e + (f + (g + (h + rest)));
    assert a + (b + (c + (d + e1))) + rest == a + (b + (c + (d + (e1 + rest))));
  }

  lemma LoadConstantsBack(ks: seq<Constant>, rest: Bytes)
    requires |ks| < 0x8000_0000 && forall i :: 0 <= i < |ks| ==> ConstantFits(ks[i])
    ensures LoadConstants(DumpInt(|ks|) + (DumpConstants(ks) + rest)) == Loaded(ks, rest)
  {
    IntBack(|ks|, DumpConstants(ks) + rest);
    ConstantsBack(ks, rest);
  }

  lemma DebugBack(f: Proto, g: Proto, rest: Bytes)
    requires Fits(f)
    ensures LoadDebug(DumpDebug(f) + rest, g)
      == Loaded(g.(lineinfo := f.lineinfo, locvars := f.locvars, upvalues := f.upvalues), rest)
  {
    hide LoadInt, LoadWords, LoadMany, DumpInt, DumpWords, DumpLocVars, DumpStrings;
    var r2 := DumpInt(|f.upvalues|) + (DumpStrings(f.upvalues) + rest);
    var r1 := DumpInt(|f.locvars|) + (DumpLocVars(f.locvars) + r2);
    assert DumpDebug(f) + rest == DumpInt(|f.lineinfo|) + (DumpWords(f.lineinfo) + r1);
    LoadWordsBack(f.lineinfo, r1);
    IntBack(|f.locvars|, DumpLocVars(f.locvars) + r2);
    LocVarsBack(f.locvars, r2);
    IntBack(|f.upvalues|, DumpStrings(f.upvalues) + rest);
    StringsBack(f.upvalues, rest);
  }

  lemma {:induction false} FilledNth(f: Proto, source: Option<Bytes>, n: nat, i: nat)
    requires i < n <= |f.p|
    ensures FilledAll(f, source, n)[i] == Filled(f.p[i], source)
    decreases n
  {
    if i < n - 1 {
      FilledNth(f, source, n - 1, i);
    }
  }

  lemma {:induction false} DeepestIs(f: Proto, n: nat, i: nat)
    requires i < n <= |f.p|
    ensures Depth(f.p[i]) <= DeepestOf(f, n)
    decreases n
  {
    if i < n - 1 {
      DeepestIs(f, n - 1, i);
    }
  }

  /** The parts of loading a function, put together. */
  lemma FunctionParts(check: Proto -> bool, s: Bytes, known: Option<Bytes>, level: nat, head: Proto, r1: Bytes,
                      n: nat, r2: Bytes, p: seq<Proto>, r3: Bytes, f: Proto, rest: Bytes)
    requires level < MAXCCALLS && LoadHead(s, known) == Loaded(head, r1) && LoadInt(r1) == Loaded(n, r2)
    requires LoadProtos(check, r2, n, head.source, level + 1) == Loaded(p, r3)
    requires LoadDebug(r3, head.(p := p)) == Loaded(f, rest) && check(f)
    ensures LoadFunction(check, s, known, level) == Loaded(f, rest)
  {
    hide LoadHead, LoadInt, LoadProtos, LoadDebug;
  }

  /** What was dumped is loaded again: nothing is lost but the difference between
      a null source and the parent's. */
  lemma {:induction false} FunctionBack(check: Proto -> bool, f: Proto, parent: Option<Bytes>, known: Option<Bytes>,
      level: nat, rest: Bytes)
    requires Fits(f) && level + Depth(f) <= MAXCCALLS && Checked(check, Filled(f, known))
    requires parent == known || parent == None
    ensures LoadFunction(check, DumpFunction(f, parent) + rest, known, level) == Loaded(Filled(f, known), rest)
    decreases f, 1, 0
  {
    hide DumpHead, DumpInt, DumpProtos, DumpDebug, DumpFunction;
    hide LoadHead, LoadInt, LoadProtos, LoadDebug, LoadFunction, Fits, Depth, Filled, FilledAll, Checked;
    var n, source := |f.p|, SourceOf(f, known);
    var r3 := DumpDebug(f) + rest;
    var r2 := DumpProtos(f, n) + r3;
    var r1 := DumpInt(n) + r2;
    var head := f.(source := source, p := [], lineinfo := [], locvars := [], upvalues := []);
    FunctionBytes(f, parent, rest);
    FunctionFacts(check, f, known);
    HeadBack(f, parent, known, r1);
    IntBack(n, r2);
    ProtosBack(check, f, n, source, level + 1, r3);
    DebugBack(f, head.(p := FilledAll(f, source, n)), rest);
    FunctionParts(check, DumpFunction(f, parent) + rest, known, level, head, r1, n, r2, FilledAll(f, source, n), r3,
      Filled(f, known), rest);
  }

  lemma FunctionBytes(f: Proto, parent: Option<Bytes>, rest: Bytes)
    requires Fits(f)
    ensures DumpFunction(f, parent) + rest
         == DumpHead(f, parent) + (DumpInt(|f.p|) + (DumpProtos(f, |f.p|) + (DumpDebug(f) + rest)))
  {
    hide DumpHead, DumpInt, DumpProtos, DumpDebug;
  }

  lemma FunctionFacts(check: Proto -> bool, f: Proto, known: Option<Bytes>)
    requires Fits(f) && Checked(check, Filled(f, known))
    ensures |f.p| < 0x8000_0000 && check(Filled(f, known)) && Depth(f) == 1 + DeepestOf(f, |f.p|)
    ensures Filled(f, known) == f.(source := SourceOf(f, known), p := FilledAll(f, SourceOf(f, known), |f.p|))
    ensures forall i :: 0 <= i < |f.p| ==> Fits(f.p[i]) && Checked(check, Filled(f.p[i], SourceOf(f, known)))
  {
    forall i | 0 <= i < |f.p|
      ensures Fits(f.p[i]) && Checked(check, Filled(f.p[i], SourceOf(f, known)))
    {
      FilledNth(f, SourceOf(f, known), |f.p|, i);
      assert Checked(check, Filled(f, known).p[i]);
    }
  }

  lemma {:induction false} ProtosBack(check: Proto -> bool, f: Proto, n: nat, source: Option<Bytes>, level: nat,
      rest: Bytes)
    requires Fits(f) && n <= |f.p| && level + DeepestOf(f, |f.p|) <= MAXCCALLS
      && (f.source == source || f.source == None)
    requires forall i :: 0 <= i < |f.p| ==> Fits(f.p[i]) && Checked(check, Filled(f.p[i], source))
    ensures LoadProtos(check, DumpProtos(f, n) + rest, n, source, level) == Loaded(FilledAll(f, source, n), rest)
    decreases f, 0, n
  {
    hide LoadFunction, DumpFunction, Fits, Checked, Depth, Filled;
    if n == 0 {
      assert DumpProtos(f, 0) + rest == rest;
    } else {
      var last := f.p[n - 1];
      DeepestIs(f, |f.p|, n - 1);
      assert DumpProtos(f, n) + rest == DumpProtos(f, n - 1) + (DumpFunction(last, f.source) + rest);
      ProtosBack(check, f, n - 1, source, level, DumpFunction(last, f.source) + rest);
      FunctionBack(check, last, f.source, source, level, rest);
    }
  }

  /** Loading a dumped chunk gives the prototype back, with null sources filled in. */
  lemma DumpUndump(check: Proto -> bool, f: Proto)
    requires Fits(f) && Depth(f) <= 200 && Checked(check, Filled(f, Some([61, 63])))
    ensures Undump(check, Dump(f)) == Loaded(Filled(f, Some([61, 63])), [])
  {
    BlockBack(HEADER, DumpFunction(f, None));
    FunctionBack(check, f, None, UNKNOWN, 0, []);
    assert DumpFunction(f, None) + [] == DumpFunction(f, None);
  }

  predicate HasSources(f: Proto)
    decreases f
  {
    f.source.Some? && forall i :: 0 <= i < |f.p| ==> HasSources(f.p[i])
  }

  /** The prototype itself comes back exactly when no source is null. */
  lemma {:induction false} FilledSame(f: Proto, parent: Option<Bytes>)
    requires parent.Some?
    ensures Filled(f, parent) == f <==> HasSources(f)
    decreases f
  {
    var source := SourceOf(f, parent);
    forall i | 0 <= i < |f.p|
      ensures Filled(f.p[i], source) == f.p[i] <==> HasSources(f.p[i])
      ensures Filled(f, parent).p[i] == Filled(f.p[i], source)
    {
      FilledSame(f.p[i], source);
      FilledNth(f, source, |f.p|, i);
    }
    if HasSources(f) {
      assert Filled(f, parent).p == f.p;
    }
  }
}
