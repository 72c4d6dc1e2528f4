/** Writing and reading precompiled chunks: ldump.c, lundump.c, and the buffered
    streams of lzio.c. */
module Undump {
  import opened Wrappers
  import opened Chunks
  import opened Limits

  // ----- streams -----

  const EOZ := -1

  function Flat(blocks: seq<Bytes>): Bytes {
    if blocks == [] then [] else blocks[0] + Flat(blocks[1..])
  }

  lemma Together(a: Bytes, b: Bytes, c: Bytes)
    ensures a + b + c == a + (b + c)
  {
  }

  /** A stream that a reader delivers in blocks; `n` bytes from `p` on are left of
      the current one. */
  class Zio {
    var blocks: seq<Bytes>
    var buff: Bytes
    var p: nat
    var n: nat

    /** luaZ_init. */
    constructor (blocks: seq<Bytes>)
      requires forall i :: 0 <= i < |blocks| ==> blocks[i] != []
      ensures Valid() && Rest() == Flat(blocks)
    {
      this.blocks, buff, p, n := blocks, [], 0, 0;
    }

    ghost predicate Valid()
      reads this
    {
      p + n == |buff| && forall i :: 0 <= i < |blocks| ==> blocks[i] != []
    }

    /** All that is still to come. */
    ghost function Rest(): Bytes
      requires Valid()
      reads this
    {
      buff[p..] + Flat(blocks)
    }

    /** luaZ_fill: takes the first byte of the next block. */
    method Fill() returns (c: int)
      requires Valid() && n == 0
      modifies this
      ensures Valid()
      ensures c == EOZ <==> old(Rest()) == []
      ensures c == EOZ ==> Rest() == old(Rest()) && n == 0
      ensures c != EOZ ==> p == 1 && [c] + Rest() == old(Rest()) && |buff| == n + 1 && buff[0] == c
    {
      assert buff[p..] == [];
      if blocks == [] {
        return EOZ;
      }
      buff, blocks := blocks[0], blocks[1..];
      n := |buff| - 1;
      p := 1;
      c := buff[0];
      assert buff == [c] + buff[1..];
    }

    /** luaZ_lookahead: leaves the byte in the stream. */
    method Lookahead() returns (c: int)
      requires Valid()
      modifies this
      ensures Valid() && Rest() == old(Rest())
      ensures c == EOZ <==> Rest() == []
      ensures c != EOZ ==> n > 0 && c == buff[p]
    {
      if n == 0 {
        c := Fill();
        if c == EOZ {
          return EOZ;
        }
        n := n + 1;
        p := p - 1;
        assert buff[0..] == [c] + buff[1..];
      }
      return buff[p];
    }

    /** One round of luaZ_read: what the current block has of `size` bytes. */
    method ReadSome(size: nat) returns (b: Bytes)
      requires Valid() && size > 0
      modifies this
      ensures Valid() && |b| <= size && b + Rest() == old(Rest())
      ensures b == [] <==> old(Rest()) == []
    {
      b := [];
      var c := Lookahead();
      if c != EOZ {
        var m := if size <= n then size else n;
        b := buff[p..p + m];
        assert buff[p..] == b + buff[p + m..];
        n := n - m;
        p := p + m;
      }
    }

    /** luaZ_read: the bytes, and how many are missing. */
    method Read(size: nat) returns (b: Bytes, missing: nat)
      requires Valid()
      modifies this
      ensures Valid() && |b| + missing == size && b + Rest() == old(Rest())
      ensures missing > 0 ==> Rest() == []
    {
      b, missing := [], size;
      ghost var all := Rest();
      assert b + all == all;
      hide *;
      while missing > 0
        invariant Valid() && |b| + missing == size && b + Rest() == all
      {
        var more := ReadSome(missing);
        if more == [] {
          return;
        }
        Together(b, more, Rest());
        b := b + more;
        missing := missing - |more|;
      }
    }
  }

  // ----- loading -----

  /** What a part of the loader returns. */
  ghost predicate Gets<T>(st: Status, v: T, l: Loaded<T>, rest: Bytes) {
    if l.Loaded? then st == Okay && v == l.v && rest == l.rest else st == Error(l.why)
  }

  class LoadState {
    const z: Zio
    const check: Proto -> bool
    var nCcalls: nat

    constructor (z: Zio, check: Proto -> bool)
      ensures this.z == z && this.check == check && nCcalls == 0
    {
      this.z, this.check, nCcalls := z, check, 0;
    }

    method GetBlock(size: nat) returns (st: Status, b: Bytes)
      requires z.Valid()
      modifies z
      ensures z.Valid() && Gets(st, b, LoadBlock(old(z.Rest()), size), z.Rest())
    {
      ghost var s := z.Rest();
      var missing;
      b, missing := z.Read(size);
      if missing != 0 {
        return Error("unexpected end"), b;
      }
      assert s[..size] == b && s[size..] == z.Rest();
      st := Okay;
    }

    method GetInt() returns (st: Status, x: nat)
      requires z.Valid()
      modifies z
      ensures z.Valid() && Gets(st, x, LoadInt(old(z.Rest())), z.Rest())
    {
      x := 0;
      var b :- GetBlock(4);
      var i := ToInt(FromLe(b));
      if i < 0 {
        return Error("bad integer"), 0;
      }
      return Okay, i;
    }

    method GetString() returns (st: Status, s: Option<Bytes>)
      requires z.Valid()
      modifies z
      ensures z.Valid() && Gets(st, s, LoadString(old(z.Rest())), z.Rest())
    {
      s := None;
      var b :- GetBlock(8);
      var size := FromLe(b);
      if size == 0 {
        return Okay, None;
      }
      var str :- GetBlock(size);
      return Okay, Some(str[..size - 1]);
    }

    /** LoadCode, and the line information. */
    method GetWords() returns (st: Status, ws: seq<nat>)
      requires z.Valid()
      modifies z
      ensures z.Valid() && Gets(st, ws, LoadWords(old(z.Rest())), z.Rest())
    {
      ws := [];
      var n :- GetInt();
      var b :- GetBlock(4 * n);
      return Okay, Words(b);
    }

    method GetConstant() returns (st: Status, c: Constant)
      requires z.Valid()
      modifies z
      ensures z.Valid() && Gets(st, c, LoadConstant(old(z.Rest())), z.Rest())
    {
      c := NilK;
      st := Okay;
      var t :- GetBlock(1);
      if t[0] == 0 {
        c := NilK;
      } else if t[0] == 1 {
        var b :- GetBlock(1);
        c := BoolK(b[0] != 0);
      } else if t[0] == 3 {
        var b :- GetBlock(8);
        c := NumberK(FromLe(b));
      } else if t[0] == 4 {
        var str :- GetString();
        c := StringK(str);
      } else {
        st := Error("bad constant");
      }
    }

    /** The first loop of LoadConstants. */
    method GetConstants() returns (st: Status, ks: seq<Constant>)
      requires z.Valid()
      modifies z
      ensures z.Valid() && Gets(st, ks, LoadConstants(old(z.Rest())), z.Rest())
    {
      hide LoadConstant, LoadInt;
      ks := [];
      var n :- GetInt();
      ghost var s := z.Rest();
      for i := 0 to n
        invariant z.Valid() && LoadMany(LoadConstant, s, i) == Loaded(ks, z.Rest())
      {
        var c;
        st, c := GetConstant();
        if st.Error? {
          ManyFails(LoadConstant, s, n, i + 1);
          return;
        }
        ks := ks + [c];
      }
      st := Okay;
    }

    method GetLocVar() returns (st: Status, v: LocVar)
      requires z.Valid()
      modifies z
      ensures z.Valid() && Gets(st, v, LoadLocVar(old(z.Rest())), z.Rest())
    {
      v := LocVar(None, 0, 0);
      var name :- GetString();
      var startpc :- GetInt();
      var endpc :- GetInt();
      return Okay, LocVar(name, startpc, endpc);
    }

    method GetDebug(f: Proto) returns (st: Status, g: Proto)
      requires z.Valid()
      modifies z
      ensures z.Valid() && Gets(st, g, LoadDebug(old(z.Rest()), f), z.Rest())
    {
      g := f;
      var lineinfo :- GetWords();
      var n :- GetInt();
      var locvars :- GetLocVars(n);
      n :- GetInt();
      var upvalues :- GetStrings(n);
      return Okay, f.(lineinfo := lineinfo, locvars := locvars, upvalues := upvalues);
    }

    method GetLocVars(n: nat) returns (st: Status, vs: seq<LocVar>)
      requires z.Valid()
      modifies z
      ensures z.Valid() && Gets(st, vs, LoadMany(LoadLocVar, old(z.Rest()), n), z.Rest())
    {
      hide LoadLocVar;
      vs := [];
      ghost var s := z.Rest();
      for i := 0 to n
        invariant z.Valid() && LoadMany(LoadLocVar, s, i) == Loaded(vs, z.Rest())
      {
        var v;
        st, v := GetLocVar();
        if st.Error? {
          ManyFails(LoadLocVar, s, n, i + 1);
          return;
        }
        vs := vs + [v];
      }
      st := Okay;
    }

    method GetStrings(n: nat) returns (st: Status, vs: seq<Option<Bytes>>)
      requires z.Valid()
      modifies z
      ensures z.Valid() && Gets(st, vs, LoadMany(LoadString, old(z.Rest()), n), z.Rest())
    {
      hide LoadString;
      vs := [];
      ghost var s := z.Rest();
      for i := 0 to n
        invariant z.Valid() && LoadMany(LoadString, s, i) == Loaded(vs, z.Rest())
      {
        var v;
        st, v := GetString();
        if st.Error? {
          ManyFails(LoadString, s, n, i + 1);
          return;
        }
        vs := vs + [v];
      }
      st := Okay;
    }

    method GetHead(parent: Option<Bytes>) returns (st: Status, f: Proto)
      requires z.Valid()
      modifies z
      ensures z.Valid() && Gets(st, f, LoadHead(old(z.Rest()), parent), z.Rest())
    {
      f := Proto(parent, 0, 0, 0, 0, 0, 0, [], [], [], [], [], []);
      var source :- GetString();
      if source.None? {
        source := parent;
      }
      var linedefined :- GetInt();
      var lastlinedefined :- GetInt();
      var b :- GetBlock(4);
      var code :- GetWords();
      var k :- GetConstants();
      return Okay, Proto(source, linedefined, lastlinedefined, b[0], b[1], b[2], b[3], code, k, [], [], [], []);
    }

    /** LoadFunction. */
    method GetFunction(parent: Option<Bytes>) returns (st: Status, f: Proto)
      requires z.Valid()
      modifies z, `nCcalls
      ensures z.Valid() && Gets(st, f, LoadFunction(check, old(z.Rest()), parent, old(nCcalls)), z.Rest())
      ensures st.Okay? ==> nCcalls == old(nCcalls)
      decreases |z.Rest()|, 0
    {
      hide LoadHead, LoadInt, LoadProtos, LoadDebug;
      f := Proto(parent, 0, 0, 0, 0, 0, 0, [], [], [], [], [], []);
      nCcalls := nCcalls + 1;
      if nCcalls > MAXCCALLS {
        return Error("code too deep"), f;
      }
      f :- GetHead(parent);
      var n :- GetInt();
      var p :- GetProtos(n, f.source);
      f :- GetDebug(f.(p := p));
      if !check(f) {
        return Error("bad code"), f;
      }
      nCcalls := nCcalls - 1;
      st := Okay;
    }

    /** The second loop of LoadConstants: the nested functions. */
    method GetProtos(n: nat, source: Option<Bytes>) returns (st: Status, p: seq<Proto>)
      requires z.Valid()
      modifies z, `nCcalls
      ensures z.Valid() && Gets(st, p, LoadProtos(check, old(z.Rest()), n, source, old(nCcalls)), z.Rest())
      ensures st.Okay? ==> nCcalls == old(nCcalls)
      decreases |z.Rest()|, 1
    {
      hide LoadFunction;
      p := [];
      ghost var s, level := z.Rest(), nCcalls;
      for i := 0 to n
        invariant z.Valid() && nCcalls == level && LoadProtos(check, s, i, source, level) == Loaded(p, z.Rest())
      {
        var f;
        st, f := GetFunction(source);
        if st.Error? {
          ProtosFail(check, s, n, i + 1, source, level);
          return;
        }
        p := p + [f];
      }
      st := Okay;
    }
  }

  lemma {:induction false} ManyFails<T>(load: Bytes -> Loaded<T>, s: Bytes, n: nat, k: nat)
    requires (forall t :: load(t).Loaded? ==> |load(t).rest| < |t|) && k <= n && LoadMany(load, s, k).Bad?
    ensures LoadMany(load, s, n).Bad? && LoadMany(load, s, n).why == LoadMany(load, s, k).why
    decreases n
  {
    if k < n {
      ManyFails(load, s, n - 1, k);
    }
  }

  lemma {:induction false} ProtosFail(check: Proto -> bool, s: Bytes, n: nat, k: nat, source: Option<Bytes>, level: nat)
    requires k <= n && LoadProtos(check, s, k, source, level).Bad?
    ensures LoadProtos(check, s, n, source, level).Bad?
    ensures LoadProtos(check, s, n, source, level).why == LoadProtos(check, s, k, source, level).why
    decreases n
  {
    hide LoadFunction;
    if k < n {
      ProtosFail(check, s, n - 1, k, source, level);
    }
  }

  /** luaU_undump: the result depends on the bytes only, not on the blocks they
      come in. */
  method Load(blocks: seq<Bytes>, check: Proto -> bool) returns (st: Status, f: Proto)
    requires forall i :: 0 <= i < |blocks| ==> blocks[i] != []
    ensures var l := Undump(check, Flat(blocks));
      if l.Loaded? then st == Okay && f == l.v else st == Error(l.why)
  {
    f := Proto(None, 0, 0, 0, 0, 0, 0, [], [], [], [], [], []);
    var z := new Zio(blocks);
    var loader := new LoadState(z, check);
    var h :- loader.GetBlock(|HEADER|);
    if h != HEADER {
      return Error("bad header"), f;
    }
    st, f := loader.GetFunction(UNKNOWN);
  }

  // ----- dumping -----

  /** The writer is a foreign function; `writer(i)` is the status of its call `i`,
      and no call follows one that failed. */
  class DumpState {
    const writer: nat -> int
    var calls: nat
    var out: Bytes
    var status: int

    constructor (writer: nat -> int)
      ensures this.writer == writer && out == [] && status == 0
    {
      this.writer, calls, out, status := writer, 0, [], 0;
    }

    /** With status zero `b` has been written, else a part of it. */
    ghost predicate Wrote(b: Bytes)
      reads this
    {
      if status == 0 then out == b else out <= b
    }

    /** DumpBlock. */
    method PutBlock(b: Bytes, ghost sofar: Bytes)
      requires Wrote(sofar)
      modifies this
      ensures Wrote(sofar + b)
    {
      if status == 0 {
        status := writer(calls);
        calls := calls + 1;
        if status == 0 {
          out := out + b;
        }
      }
    }

    /** Bytes that are written one by one. */
    method PutChars(b: Bytes, ghost sofar: Bytes)
      requires Wrote(sofar)
      modifies this
      ensures Wrote(sofar + b)
    {
      hide Wrote;
      assert sofar + [] == sofar;
      for i := 0 to |b|
        invariant Wrote(sofar + b[..i])
      {
        PutBlock([b[i]], sofar + b[..i]);
        assert sofar + b[..i] + [b[i]] == sofar + b[..i + 1];
      }
      assert b[..|b|] == b;
    }

    method PutInt(x: nat, ghost sofar: Bytes)
      requires Wrote(sofar)
      modifies this
      ensures Wrote(sofar + DumpInt(x))
    {
      PutBlock(Le(x, 4), sofar);
    }

    method PutString(s: Option<Bytes>, ghost sofar: Bytes)
      requires Wrote(sofar)
      modifies this
      ensures Wrote(sofar + DumpString(s))
    {
      if s.None? {
        PutBlock(Le(0, 8), sofar);
      } else {
        PutBlock(Le(|s.value| + 1, 8), sofar);
        PutBlock(s.value + [0], sofar + Le(|s.value| + 1, 8));
        assert sofar + Le(|s.value| + 1, 8) + (s.value + [0]) == sofar + DumpString(s);
      }
    }

    /** DumpVector, of four-byte words. */
    method PutWords(ws: seq<nat>, ghost sofar: Bytes)
      requires Wrote(sofar)
      modifies this
      ensures Wrote(sofar + DumpInt(|ws|) + DumpWords(ws))
    {
      PutInt(|ws|, sofar);
      PutBlock(DumpWords(ws), sofar + DumpInt(|ws|));
    }

    method PutConstant(c: Constant, ghost sofar: Bytes)
      requires Wrote(sofar)
      modifies this
      ensures Wrote(sofar + DumpConstant(c))
    {
      hide Wrote, Le, DumpString;
      match c {
        case NilK =>
          PutBlock([0], sofar);
        case BoolK(b) =>
          PutBlock([1], sofar);
          PutBlock([if b then 1 else 0], sofar + [1]);
          assert sofar + [1] + [if b then 1 else 0] == sofar + DumpConstant(c);
        case NumberK(bits) =>
          PutBlock([3], sofar);
          PutBlock(Le(bits, 8), sofar + [3]);
          assert sofar + [3] + Le(bits, 8) == sofar + DumpConstant(c);
        case StringK(s) =>
          PutBlock([4], sofar);
          PutString(s, sofar + [4]);
          assert sofar + [4] + DumpString(s) == sofar + DumpConstant(c);
      }
    }

    /** The first loop of DumpConstants. */
    method PutConstants(ks: seq<Constant>, ghost sofar: Bytes)
      requires Wrote(sofar)
      modifies this
      ensures Wrote(sofar + DumpInt(|ks|) + DumpConstants(ks))
    {
      hide Wrote, DumpInt, DumpConstant;
      PutInt(|ks|, sofar);
      ghost var base := sofar + DumpInt(|ks|);
      assert base + [] == base;
      for i := 0 to |ks|
        invariant Wrote(base + DumpConstants(ks[..i]))
      {
        assert ks[..i + 1][..i] == ks[..i];
        PutConstant(ks[i], base + DumpConstants(ks[..i]));
        assert base + DumpConstants(ks[..i]) + DumpConstant(ks[i]) == base + DumpConstants(ks[..i + 1]);
      }
      assert ks[..|ks|] == ks;
    }

    method PutLocVar(v: LocVar, ghost sofar: Bytes)
      requires Wrote(sofar)
      modifies this
      ensures Wrote(sofar + DumpLocVar(v))
    {
      hide Wrote, DumpInt, DumpString;
      ghost var name, startpc := DumpString(v.varname), DumpInt(v.startpc);
      PutString(v.varname, sofar);
      PutInt(v.startpc, sofar + name);
      PutInt(v.endpc, sofar + name + startpc);
      assert sofar + name + startpc + DumpInt(v.endpc) == sofar + (name + (startpc + DumpInt(v.endpc)));
    }

    method PutLocVars(vs: seq<LocVar>, ghost sofar: Bytes)
      requires Wrote(sofar)
      modifies this
      ensures Wrote(sofar + DumpInt(|vs|) + DumpLocVars(vs))
    {
      hide Wrote, DumpInt, DumpLocVar;
      PutInt(|vs|, sofar);
      ghost var base := sofar + DumpInt(|vs|);
      assert base + [] == base;
      for i := 0 to |vs|
        invariant Wrote(base + DumpLocVars(vs[..i]))
      {
        assert vs[..i + 1][..i] == vs[..i];
        PutLocVar(vs[i], base + DumpLocVars(vs[..i]));
        assert base + DumpLocVars(vs[..i]) + DumpLocVar(vs[i]) == base + DumpLocVars(vs[..i + 1]);
      }
      assert vs[..|vs|] == vs;
    }

    method PutUpvalues(vs: seq<Option<Bytes>>, ghost sofar: Bytes)
      requires Wrote(sofar)
      modifies this
      ensures Wrote(sofar + DumpInt(|vs|) + DumpStrings(vs))
    {
      hide Wrote, DumpInt, DumpString;
      PutInt(|vs|, sofar);
      ghost var base := sofar + DumpInt(|vs|);
      assert base + [] == base;
      for i := 0 to |vs|
        invariant Wrote(base + DumpStrings(vs[..i]))
      {
        assert vs[..i + 1][..i] == vs[..i];
        PutString(vs[i], base + DumpStrings(vs[..i]));
        assert base + DumpStrings(vs[..i]) + DumpString(vs[i]) == base + DumpStrings(vs[..i + 1]);
      }
      assert vs[..|vs|] == vs;
    }

    /** DumpDebug. */
    method PutDebug(f: Proto, ghost sofar: Bytes)
      requires Wrote(sofar) && Fits(f)
      modifies this
      ensures Wrote(sofar + DumpDebug(f))
    {
      hide Wrote, DumpInt, DumpWords, DumpLocVars, DumpStrings;
      ghost var a, b, c := DumpInt(|f.lineinfo|), DumpWords(f.lineinfo), DumpInt(|f.locvars|);
      ghost var d, e, g := DumpLocVars(f.locvars), DumpInt(|f.upvalues|), DumpStrings(f.upvalues);
      PutWords(f.lineinfo, sofar);
      PutLocVars(f.locvars, sofar + a + b);
      PutUpvalues(f.upvalues, sofar + a + b + c + d);
      assert sofar + a + b + c + d + e + g == sofar + (a + (b + (c + (d + (e + g)))));
    }

    /** DumpFunction. */
    method PutFunction(f: Proto, parent: Option<Bytes>, ghost sofar: Bytes)
      requires Wrote(sofar) && Fits(f)
      modifies this
      ensures Wrote(sofar + DumpFunction(f, parent))
      decreases f, 1
    {
      hide Wrote, DumpHead, DumpInt, DumpProtos, DumpDebug;
      PutHead(f, parent, sofar);
      ghost var a, b := DumpHead(f, parent), DumpInt(|f.p|);
      PutInt(|f.p|, sofar + a);
      PutProtos(f, sofar + a + b);
      PutDebug(f, sofar + a + b + DumpProtos(f, |f.p|));
      assert sofar + a + b + DumpProtos(f, |f.p|) + DumpDebug(f)
        == sofar + (a + (b + (DumpProtos(f, |f.p|) + DumpDebug(f))));
    }

    method PutHead(f: Proto, parent: Option<Bytes>, ghost sofar: Bytes)
      requires Wrote(sofar) && Fits(f)
      modifies this
      ensures Wrote(sofar + DumpHead(f, parent))
    {
      hide Wrote, DumpString, DumpInt, DumpWords, DumpConstants, Fits;
      var name := if f.source == parent then None else f.source;
      ghost var a, b, c := DumpString(name), DumpInt(f.linedefined), DumpInt(f.lastlinedefined);
      var bytes := [f.nups, f.numparams, f.isVararg, f.maxstacksize];
      PutString(name, sofar);
      PutInt(f.linedefined, sofar + a);
      PutInt(f.lastlinedefined, sofar + a + b);
      PutChars(bytes, sofar + a + b + c);
      PutWords(f.code, sofar + a + b + c + bytes);
      ghost var d, e := DumpInt(|f.code|), DumpWords(f.code);
      PutConstants(f.k, sofar + a + b + c + bytes + d + e);
      HeadJoined(sofar, a, b, c, bytes, d, e, DumpInt(|f.k|), DumpConstants(f.k));
    }

    /** The second loop of DumpConstants: the nested functions. */
    method PutProtos(f: Proto, ghost sofar: Bytes)
      requires Wrote(sofar) && Fits(f)
      modifies this
      ensures Wrote(sofar + DumpProtos(f, |f.p|))
      decreases f, 0
    {
      hide Wrote, DumpFunction;
      assert sofar + [] == sofar;
      for i := 0 to |f.p|
        invariant Wrote(sofar + DumpProtos(f, i))
      {
        PutFunction(f.p[i], f.source, sofar + DumpProtos(f, i));
        assert sofar + DumpProtos(f, i) + DumpFunction(f.p[i], f.source) == sofar + DumpProtos(f, i + 1);
      }
    }
  }

  lemma HeadJoined(s: Bytes, a: Bytes, b: Bytes, c: Bytes, d: Bytes, e: Bytes, f: Bytes, g: Bytes, h: Bytes)
    ensures s + a + b + c + d + e + f + g + h == s + (a + (b + (c + (d + (e + (f + (g + h)))))))
  {
    var front, back := s + a + b + c, e + (f + (g + h));
    assert front + d + e + f + g + h == front + (d + back);
    assert front + (d + back) == s + (a + (b + (c + (d + back))));
  }

  /** luaU_dump: with status zero the whole chunk has been written. */
  method Save(f: Proto, writer: nat -> int) returns (status: int, out: Bytes)
    requires Fits(f)
    ensures if status == 0 then out == Dump(f) else out <= Dump(f)
  {
    var dumper := new DumpState(writer);
    dumper.PutBlock(HEADER, []);
    assert [] + HEADER == HEADER;
    dumper.PutFunction(f, None, HEADER);
    return dumper.status, dumper.out;
  }
}
