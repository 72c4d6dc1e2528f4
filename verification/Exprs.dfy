/** Expressions with operators: which trees the priorities allow, and what
    parsing their tokens gives. */
module Exprs {
  import opened Wrappers
  import opened Limits

  datatype BinOp = Add | Sub | Mul | Div | Mod | Pow | Concat | Ne | Eq | Lt | Le | Gt | Ge | And | Or

  datatype UnOp = Minus | Not | Len

  /** `Dash` is both an unary and a binary operator. `Atom` is any operand that
      needs no parentheses, `Other` any token that is not part of an expression. */
  datatype Token =
    | Plus | Dash | Star | Slash | Percent | Caret | Dots | NotEqual | Equal
    | Less | LessEqual | Greater | GreaterEqual | AndWord | OrWord | NotWord | Hash
    | Opening | Closing | AtomOf(id: int) | Other(id: int)

  datatype Expr = Atom(id: int) | Paren(e: Expr) | Unary(uop: UnOp, e: Expr) | Binary(op: BinOp, l: Expr, r: Expr)

  const UNARY_PRIORITY := 8

  /** The table `priority`: the left priority, against which limits are checked. */
  function Left(op: BinOp): nat {
    match op
    case Add | Sub => 6
    case Mul | Div | Mod => 7
    case Pow => 10
    case Concat => 5
    case Ne | Eq | Lt | Le | Gt | Ge => 3
    case And => 2
    case Or => 1
  }

  /** The right priority, the limit of the right operand. */
  function Right(op: BinOp): nat {
    match op
    case Add | Sub => 6
    case Mul | Div | Mod => 7
    case Pow => 9
    case Concat => 4
    case Ne | Eq | Lt | Le | Gt | Ge => 3
    case And => 2
    case Or => 1
  }

  /** getunopr. */
  function GetUnOpr(t: Token): Option<UnOp> {
    match t
    case NotWord => Some(Not)
    case Dash => Some(Minus)
    case Hash => Some(Len)
    case _ => None
  }

  /** getbinopr. */
  function GetBinOpr(t: Token): Option<BinOp> {
    match t
    case Plus => Some(Add)
    case Dash => Some(Sub)
    case Star => Some(Mul)
    case Slash => Some(Div)
    case Percent => Some(Mod)
    case Caret => Some(Pow)
    case Dots => Some(Concat)
    case NotEqual => Some(Ne)
    case Equal => Some(Eq)
    case Less => Some(Lt)
    case LessEqual => Some(Le)
    case Greater => Some(Gt)
    case GreaterEqual => Some(Ge)
    case AndWord => Some(And)
    case OrWord => Some(Or)
    case _ => None
  }

  function BinToken(op: BinOp): (t: Token)
    ensures GetBinOpr(t) == Some(op)
  {
    match op
    case Add => Plus
    case Sub => Dash
    case Mul => Star
    case Div => Slash
    case Mod => Percent
    case Pow => Caret
    case Concat => Dots
    case Ne => NotEqual
    case Eq => Equal
    case Lt => Less
    case Le => LessEqual
    case Gt => Greater
    case Ge => GreaterEqual
    case And => AndWord
    case Or => OrWord
  }

  function UnToken(op: UnOp): (t: Token)
    ensures GetUnOpr(t) == Some(op)
  {
    match op
    case Minus => Dash
    case Not => NotWord
    case Len => Hash
  }

  function Tokens(e: Expr): (toks: seq<Token>)
    ensures toks != []
  {
    match e
    case Atom(id) => [AtomOf(id)]
    case Paren(e1) => [Opening] + Tokens(e1) + [Closing]
    case Unary(u, e1) => [UnToken(u)] + Tokens(e1)
    case Binary(op, l, r) => Tokens(l) + [BinToken(op)] + Tokens(r)
  }

  // ----- the trees that the priorities allow -----

  /** The least limit of the operands that end where `e` ends: an operator with
      more priority, coming next, would take such an operand instead of `e`. */
  function Edge(e: Expr): nat {
    match e
    case Atom(_) => 100
    case Paren(_) => 100
    case Unary(_, e1) => Min(UNARY_PRIORITY, Edge(e1))
    case Binary(op, _, r) => Min(Right(op), Edge(r))
  }

  function Min(a: nat, b: nat): nat {
    if a < b then a else b
  }

  /** `e` is an expression of operators with more priority than `limit`, with
      parentheses wherever priorities would group it in another way. */
  predicate Fits(e: Expr, limit: nat) {
    match e
    case Atom(_) => true
    case Paren(e1) => Fits(e1, 0)
    case Unary(_, e1) => Fits(e1, UNARY_PRIORITY)
    case Binary(op, l, r) => Left(op) > limit && Fits(l, limit) && Left(op) <= Edge(l) && Fits(r, Right(op))
  }

  /** No operator that comes next belongs to `e`. */
  predicate Ends(rest: seq<Token>, limit: nat) {
    rest != [] && GetBinOpr(rest[0]).Some? ==> Left(GetBinOpr(rest[0]).value) <= limit
  }

  /** How deep subexpr nests. */
  function Depth(e: Expr): nat {
    match e
    case Atom(_) => 1
    case Paren(e1) => 1 + Depth(e1)
    case Unary(_, e1) => 1 + Depth(e1)
    case Binary(_, l, r) => if Depth(l) > 1 + Depth(r) then Depth(l) else 1 + Depth(r)
  }

  // ----- parsing -----

  datatype Parse = Parsed(e: Expr, rest: seq<Token>) | Failed(message: string)

  /** subexpr at nesting `level`. */
  function SubExpr(toks: seq<Token>, limit: nat, level: nat): (p: Parse)
    ensures p.Parsed? ==> |p.rest| < |toks|
    decreases |toks|, 1
  {
    if level >= MAXCCALLS then Failed("chunk has too many syntax levels")
    else if toks == [] then Failed("unexpected symbol")
    else if GetUnOpr(toks[0]).Some? then
      var p := SubExpr(toks[1..], UNARY_PRIORITY, level + 1);
      if p.Failed? then p else MoreOps(Unary(GetUnOpr(toks[0]).value, p.e), p.rest, limit, level)
    else
      var p := SimpleExp(toks, level + 1);
      if p.Failed? then p else MoreOps(p.e, p.rest, limit, level)
  }

  /** The operands without operators, those of simpleexp and prefixexp. */
  function SimpleExp(toks: seq<Token>, level: nat): (p: Parse)
    requires toks != []
    ensures p.Parsed? ==> |p.rest| < |toks|
    decreases |toks|, 0
  {
    if toks[0].AtomOf? then Parsed(Atom(toks[0].id), toks[1..])
    else if toks[0] != Opening then Failed("unexpected symbol")
    else
      var p := SubExpr(toks[1..], 0, level);
      if p.Failed? then p
      else if p.rest == [] || p.rest[0] != Closing then Failed("')' expected")
      else Parsed(Paren(p.e), p.rest[1..])
  }

  /** The loop over the operators with more priority than `limit`. */
  function MoreOps(v: Expr, toks: seq<Token>, limit: nat, level: nat): (p: Parse)
    ensures p.Parsed? ==> |p.rest| <= |toks|
    decreases |toks|, 2
  {
    if toks == [] || GetBinOpr(toks[0]).None? || Left(GetBinOpr(toks[0]).value) <= limit then Parsed(v, toks)
    else
      var op := GetBinOpr(toks[0]).value;
      var p := SubExpr(toks[1..], Right(op), level + 1);
      if p.Failed? then p else MoreOps(Binary(op, v, p.e), p.rest, limit, level)
  }

  /** What subexpr reads before its loop. */
  function HeadExp(toks: seq<Token>, level: nat): Parse
    requires toks != []
  {
    if GetUnOpr(toks[0]).None? then SimpleExp(toks, level)
    else
      var p := SubExpr(toks[1..], UNARY_PRIORITY, level);
      if p.Failed? then p else Parsed(Unary(GetUnOpr(toks[0]).value, p.e), p.rest)
  }

  lemma SubExprStarts(toks: seq<Token>, limit: nat, level: nat)
    requires toks != [] && level < MAXCCALLS
    ensures HeadExp(toks, level + 1).Failed? ==> SubExpr(toks, limit, level) == HeadExp(toks, level + 1)
    ensures HeadExp(toks, level + 1).Parsed? ==>
      SubExpr(toks, limit, level) == MoreOps(HeadExp(toks, level + 1).e, HeadExp(toks, level + 1).rest, limit, level)
  {
  }

  lemma SubExprFails(toks: seq<Token>, limit: nat, level: nat)
    ensures level >= MAXCCALLS ==> SubExpr(toks, limit, level) == Failed("chunk has too many syntax levels")
    ensures level < MAXCCALLS && toks == [] ==> SubExpr(toks, limit, level) == Failed("unexpected symbol")
  {
  }

  function AfterOperand(v: Expr, op: BinOp, p: Parse, limit: nat, level: nat): Parse {
    if p.Failed? then p else MoreOps(Binary(op, v, p.e), p.rest, limit, level)
  }

  lemma MoreOpsStep(v: Expr, toks: seq<Token>, limit: nat, level: nat, op: Option<BinOp>)
    requires op == if toks == [] then None else GetBinOpr(toks[0])
    ensures !(op.Some? && Left(op.value) > limit) ==> MoreOps(v, toks, limit, level) == Parsed(v, toks)
    ensures op.Some? && Left(op.value) > limit ==> toks != []
    ensures op.Some? && Left(op.value) > limit ==>
      MoreOps(v, toks, limit, level) == AfterOperand(v, op.value, SubExpr(toks[1..], Right(op.value), level + 1), limit, level)
  {
  }

  lemma BinTokenOf(t: Token)
    requires GetBinOpr(t).Some?
    ensures BinToken(GetBinOpr(t).value) == t
  {
  }

  lemma UnTokenOf(t: Token)
    requires GetUnOpr(t).Some?
    ensures UnToken(GetUnOpr(t).value) == t
  {
  }

  /** `p` is a tree that the priorities allow, and its tokens with those left are
      `toks`. */
  ghost predicate Reads(toks: seq<Token>, p: Parse, limit: nat, level: nat)
    requires p.Parsed?
  {
    true <==> (
      && toks == Tokens(p.e) + p.rest && Fits(p.e, limit)
      && Ends(p.rest, Min(limit, Edge(p.e))) && Depth(p.e) + level <= MAXCCALLS
    )
  }

  lemma BinaryTokens(op: BinOp, l: Expr, r: Expr, rest: seq<Token>)
    ensures Tokens(Binary(op, l, r)) + rest == Tokens(l) + ([BinToken(op)] + (Tokens(r) + rest))
  {
  }

  lemma {:induction false} SubExprSound(toks: seq<Token>, limit: nat, level: nat)
    ensures SubExpr(toks, limit, level).Parsed? ==> Reads(toks, SubExpr(toks, limit, level), limit, level)
    decreases |toks|, 1
  {
    var p := SubExpr(toks, limit, level);
    if p.Parsed? {
      if GetUnOpr(toks[0]).Some? {
        var q := SubExpr(toks[1..], UNARY_PRIORITY, level + 1);
        SubExprSound(toks[1..], UNARY_PRIORITY, level + 1);
        UnTokenOf(toks[0]);
        var u := Unary(GetUnOpr(toks[0]).value, q.e);
        assert toks == [toks[0]] + toks[1..];
        assert toks == Tokens(u) + q.rest;
        MoreOpsSound(u, q.rest, limit, level);
      } else {
        var q := SimpleExp(toks, level + 1);
        SimpleExpSound(toks, level + 1);
        MoreOpsSound(q.e, q.rest, limit, level);
      }
    }
  }

  lemma {:induction false} SimpleExpSound(toks: seq<Token>, level: nat)
    requires toks != [] && 0 < level <= MAXCCALLS
    ensures var p := SimpleExp(toks, level);
      p.Parsed? ==> toks == Tokens(p.e) + p.rest && !p.e.Binary? && Fits(p.e, 0) && Edge(p.e) == 100 && Depth(p.e) + level - 1 <= MAXCCALLS
    decreases |toks|, 0
  {
    if toks[0] == Opening {
      var p := SubExpr(toks[1..], 0, level);
      SubExprSound(toks[1..], 0, level);
      if p.Parsed? && p.rest != [] && p.rest[0] == Closing {
        assert toks == [Opening] + toks[1..];
        assert p.rest == [Closing] + p.rest[1..];
        assert toks == Tokens(Paren(p.e)) + p.rest[1..];
      }
    } else if toks[0].AtomOf? {
      assert toks == [toks[0]] + toks[1..];
    }
  }

  lemma {:induction false} MoreOpsSound(v: Expr, toks: seq<Token>, limit: nat, level: nat)
    requires Fits(v, limit) && Ends(toks, Edge(v)) && Depth(v) + level <= MAXCCALLS
    ensures MoreOps(v, toks, limit, level).Parsed? ==>
      Reads(Tokens(v) + toks, MoreOps(v, toks, limit, level), limit, level)
    decreases |toks|, 2
  {
    if toks != [] && GetBinOpr(toks[0]).Some? && Left(GetBinOpr(toks[0]).value) > limit {
      var op := GetBinOpr(toks[0]).value;
      var p := SubExpr(toks[1..], Right(op), level + 1);
      SubExprSound(toks[1..], Right(op), level + 1);
      if p.Parsed? {
        BinTokenOf(toks[0]);
        var b := Binary(op, v, p.e);
        assert toks == [toks[0]] + toks[1..];
        BinaryTokens(op, v, p.e, p.rest);
        assert Fits(b, limit) && Ends(p.rest, Edge(b));
        hide Tokens, Fits, Edge, SubExpr;
        MoreOpsSound(b, p.rest, limit, level);
      }
    }
  }

  /** The tokens of an allowed tree are read up to the point where only the loop
      over the operators that follow is left. */
  lemma {:induction false} SubExprComplete(e: Expr, rest: seq<Token>, limit: nat, level: nat)
    requires Fits(e, limit) && Ends(rest, Edge(e)) && Depth(e) + level <= MAXCCALLS
    ensures SubExpr(Tokens(e) + rest, limit, level) == MoreOps(e, rest, limit, level)
    decreases e, 1
  {
    match e {
      case Atom(id) =>
        assert (Tokens(e) + rest)[1..] == rest;
      case Paren(e1) =>
        ParenComplete(e1, rest, limit, level);
      case Unary(u, e1) =>
        UnaryComplete(u, e1, rest, limit, level);
      case Binary(op, l, r) =>
        BinaryComplete(op, l, r, rest, limit, level);
    }
  }

  lemma {:induction false} ParenComplete(e: Expr, rest: seq<Token>, limit: nat, level: nat)
    requires Fits(e, 0) && Depth(e) + level < MAXCCALLS
    ensures SubExpr(Tokens(Paren(e)) + rest, limit, level) == MoreOps(Paren(e), rest, limit, level)
    decreases Paren(e), 0
  {
    var toks, after := Tokens(Paren(e)) + rest, [Closing] + rest;
    assert toks[0] == Opening && toks[1..] == Tokens(e) + after && after[1..] == rest;
    SubExprComplete(e, after, 0, level + 1);
    hide Tokens, Fits, Edge, Depth, SubExpr;
    assert MoreOps(e, after, 0, level + 1) == Parsed(e, after);
    assert SimpleExp(toks, level + 1) == Parsed(Paren(e), rest);
    SubExprStarts(toks, limit, level);
  }

  lemma {:induction false} UnaryComplete(u: UnOp, e: Expr, rest: seq<Token>, limit: nat, level: nat)
    requires Fits(e, UNARY_PRIORITY) && Ends(rest, Min(UNARY_PRIORITY, Edge(e))) && Depth(e) + level < MAXCCALLS
    ensures SubExpr(Tokens(Unary(u, e)) + rest, limit, level) == MoreOps(Unary(u, e), rest, limit, level)
    decreases Unary(u, e), 0
  {
    var toks := Tokens(Unary(u, e)) + rest;
    assert toks[0] == UnToken(u) && toks[1..] == Tokens(e) + rest;
    SubExprComplete(e, rest, UNARY_PRIORITY, level + 1);
    hide Tokens, Fits, Edge, Depth;
    assert MoreOps(e, rest, UNARY_PRIORITY, level + 1) == Parsed(e, rest);
  }

  lemma {:induction false} BinaryComplete(op: BinOp, l: Expr, r: Expr, rest: seq<Token>, limit: nat, level: nat)
    requires Fits(Binary(op, l, r), limit) && Ends(rest, Edge(Binary(op, l, r)))
      && Depth(Binary(op, l, r)) + level <= MAXCCALLS
    ensures SubExpr(Tokens(Binary(op, l, r)) + rest, limit, level) == MoreOps(Binary(op, l, r), rest, limit, level)
    decreases Binary(op, l, r), 0
  {
    var after := [BinToken(op)] + (Tokens(r) + rest);
    BinaryTokens(op, l, r, rest);
    SubExprComplete(l, after, limit, level);
    SubExprComplete(r, rest, Right(op), level + 1);
    hide Tokens, Fits, Edge, Depth, SubExpr;
    assert after[1..] == Tokens(r) + rest;
    assert MoreOps(r, rest, Right(op), level + 1) == Parsed(r, rest);
    assert MoreOps(l, after, limit, level) == MoreOps(Binary(op, l, r), rest, limit, level);
  }

  /** Parsing and printing are inverse: subexpr returns `e` exactly when the
      tokens are those of `e`, the priorities allow it, what follows does not
      continue it, and it is not too deep. */
  lemma SubExprIff(toks: seq<Token>, limit: nat, e: Expr, rest: seq<Token>)
    ensures SubExpr(toks, limit, 0) == Parsed(e, rest) <==>
      toks == Tokens(e) + rest && Fits(e, limit) && Ends(rest, Min(limit, Edge(e))) && Depth(e) <= 200
  {
    SubExprSound(toks, limit, 0);
    if toks == Tokens(e) + rest && Fits(e, limit) && Ends(rest, Min(limit, Edge(e))) && Depth(e) <= MAXCCALLS {
      SubExprComplete(e, rest, limit, 0);
    }
  }

  // ----- parentheses -----

  /** A tree as it is written: parentheses go around the operands that the
      priorities would not keep together. */
  function Written(e: Expr): Expr {
    match e
    case Atom(_) => e
    case Paren(e1) => Paren(Written(e1))
    case Unary(u, e1) => Unary(u, Operand(Written(e1), UNARY_PRIORITY))
    case Binary(op, l, r) => Binary(op, LeftOperand(Written(l), op), Operand(Written(r), Right(op)))
  }

  function Operand(e: Expr, limit: nat): Expr {
    if Fits(e, limit) then e else Paren(e)
  }

  function LeftOperand(e: Expr, op: BinOp): Expr {
    if Left(op) <= Edge(e) then e else Paren(e)
  }

  /** The meaning of a tree does not depend on parentheses. */
  function Bare(e: Expr): Expr {
    match e
    case Atom(_) => e
    case Paren(e1) => Bare(e1)
    case Unary(u, e1) => Unary(u, Bare(e1))
    case Binary(op, l, r) => Binary(op, Bare(l), Bare(r))
  }

  lemma {:induction false} WrittenFits(e: Expr)
    ensures Fits(Written(e), 0) && Bare(Written(e)) == Bare(e)
    decreases e
  {
    match e {
      case Atom(_) =>
      case Paren(e1) => WrittenFits(e1);
      case Unary(u, e1) => WrittenFits(e1);
      case Binary(op, l, r) =>
        WrittenFits(l);
        WrittenFits(r);
    }
  }

  /** Every tree is written, with parentheses only where they are needed, and
      read back. */
  lemma WriteRead(e: Expr)
    requires Depth(Written(e)) <= 200
    ensures SubExpr(Tokens(Written(e)), 0, 0) == Parsed(Written(e), [])
    ensures Bare(Written(e)) == Bare(e)
  {
    WrittenFits(e);
    assert Tokens(Written(e)) + [] == Tokens(Written(e));
    SubExprComplete(Written(e), [], 0, 0);
  }

  /** Without the parentheses that were added around an operand another tree is
      read. */
  lemma ParensNeeded(op: BinOp, u: UnOp, l: Expr, r: Expr)
    ensures LeftOperand(l, op) != l ==> forall r', limit :: !Fits(Binary(op, l, r'), limit)
    ensures Operand(r, Right(op)) != r ==> forall l', limit :: !Fits(Binary(op, l', r), limit)
    ensures Operand(l, UNARY_PRIORITY) != l ==> forall limit :: !Fits(Unary(u, l), limit)
  {
  }
}
