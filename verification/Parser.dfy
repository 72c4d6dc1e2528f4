/** The expression parser of lparser.c, as a state that reads tokens. The tree
    stands for the calls to the code generator. */
module Parser {
  import opened Wrappers
  import opened Exprs
  import opened Limits

  class LexState {
    const toks: seq<Token>
    var pos: nat
    var nCcalls: nat

    constructor (toks: seq<Token>)
      ensures this.toks == toks && pos == 0 && nCcalls == 0
    {
      this.toks, pos, nCcalls := toks, 0, 0;
    }

    /** The tokens not read yet. */
    function Rest(): (rest: seq<Token>)
      requires pos <= |toks|
      reads this
    {
      toks[pos..]
    }

    /** The operator at hand, if there is one. */
    function CurrentOp(): Option<BinOp>
      requires pos <= |toks|
      reads this
    {
      if pos < |toks| then GetBinOpr(toks[pos]) else None
    }

    ghost predicate Does(p: Parse, st: Status, v: Expr)
      reads this
    {
      pos <= |toks| && if p.Parsed? then st == Okay && v == p.e && Rest() == p.rest else st == Error(p.message)
    }

    /** subexpr: one expression with the operators that bind more than `limit`;
        returns the first operator left. */
    method ParseSub(limit: nat) returns (st: Status, v: Expr, op: Option<BinOp>)
      requires pos <= |toks|
      modifies `pos, `nCcalls
      ensures Does(SubExpr(old(Rest()), limit, old(nCcalls)), st, v) && pos >= old(pos)
      ensures st.Okay? ==> nCcalls == old(nCcalls) && op == CurrentOp() && pos > old(pos)
      decreases |toks| - pos, 3
    {
      hide SubExpr, MoreOps, HeadExp, Left, Right, GetBinOpr, GetUnOpr;
      SubExprFails(Rest(), limit, nCcalls);
      v, op := Atom(0), None;
      nCcalls := nCcalls + 1;
      if nCcalls > MAXCCALLS {
        return Error("chunk has too many syntax levels"), v, op;
      }
      if pos == |toks| {
        return Error("unexpected symbol"), v, op;
      }
      ghost var start, level := Rest(), nCcalls - 1;
      SubExprStarts(start, limit, level);
      st, v := ParseHead();
      if st.Error? {
        return;
      }
      ghost var whole := SubExpr(start, limit, level);
      op := CurrentOp();
      while op.Some? && Left(op.value) > limit
        invariant old(pos) < pos <= |toks| && op == CurrentOp() && nCcalls == level + 1 && st == Okay
        invariant whole == MoreOps(v, Rest(), limit, level)
        decreases |toks| - pos
      {
        ghost var rest := Rest();
        MoreOpsStep(v, rest, limit, level, op);
        pos := pos + 1;
        assert Rest() == rest[1..];
        var v2, nextop;
        st, v2, nextop := ParseSub(Right(op.value));
        if st.Error? {
          return;
        }
        v := Binary(op.value, v, v2);
        op := nextop;
      }
      MoreOpsStep(v, Rest(), limit, level, op);
      nCcalls := nCcalls - 1;
    }

    /** The first part of subexpr: an operand, or a prefix operator and all that
        binds more. */
    method ParseHead() returns (st: Status, v: Expr)
      requires pos < |toks|
      modifies `pos, `nCcalls
      ensures Does(HeadExp(old(Rest()), old(nCcalls)), st, v) && pos >= old(pos)
      ensures st.Okay? ==> nCcalls == old(nCcalls) && pos > old(pos)
      decreases |toks| - pos, 2
    {
      ghost var start := Rest();
      var uop := GetUnOpr(toks[pos]);
      if uop.None? {
        st, v := ParseSimple();
        return;
      }
      pos := pos + 1;
      assert Rest() == start[1..];
      var op;
      st, v, op := ParseSub(UNARY_PRIORITY);
      if st.Okay? {
        v := Unary(uop.value, v);
      }
    }

    /** simpleexp and prefixexp. */
    method ParseSimple() returns (st: Status, v: Expr)
      requires pos < |toks|
      modifies `pos, `nCcalls
      ensures Does(SimpleExp(old(Rest()), old(nCcalls)), st, v) && pos >= old(pos)
      ensures st.Okay? ==> nCcalls == old(nCcalls) && pos > old(pos)
      decreases |toks| - pos, 1
    {
      ghost var start := Rest();
      var t := toks[pos];
      v := Atom(0);
      if t.AtomOf? {
        pos := pos + 1;
        assert Rest() == start[1..];
        return Okay, Atom(t.id);
      }
      if t != Opening {
        return Error("unexpected symbol"), v;
      }
      pos := pos + 1;
      assert Rest() == start[1..];
      var op;
      st, v, op := ParseSub(0);
      if st.Error? {
        return;
      }
      if pos == |toks| || toks[pos] != Closing {
        return Error("')' expected"), v;
      }
      ghost var rest := Rest();
      pos := pos + 1;
      assert Rest() == rest[1..];
      return Okay, Paren(v);
    }

    /** The tokens start with those of `e`, which the priorities allow. */
    ghost predicate Allowed(e: Expr, rest: seq<Token>) {
      toks == Tokens(e) + rest && Fits(e, 0) && Ends(rest, 0) && Depth(e) <= 200
    }

    /** expr, on all tokens: the one tree that the priorities allow. */
    method ParseExpr() returns (st: Status, v: Expr)
      requires pos == 0 && nCcalls == 0
      modifies `pos, `nCcalls
      ensures pos <= |toks|
      ensures st.Okay? ==> Allowed(v, Rest())
      ensures forall e, rest :: Allowed(e, rest) ==> st == Okay && v == e && Rest() == rest
    {
      assert Rest() == toks;
      var op;
      st, v, op := ParseSub(0);
      if st.Okay? {
        SubExprIff(toks, 0, v, Rest());
      }
      forall e, rest | Allowed(e, rest)
        ensures st == Okay && v == e && Rest() == rest
      {
        SubExprIff(toks, 0, e, rest);
      }
    }
  }
}
