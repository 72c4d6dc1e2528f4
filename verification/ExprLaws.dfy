/** How operators group, from the list of their levels. */
module ExprLaws {
  import opened Wrappers
  import opened Exprs

  /** The levels of the binary operators, from the loosest on, with their tokens.
      Prefix operators come before the last level. */
  const LEVELS: seq<seq<(Token, BinOp)>> := [
    [(OrWord, Or)],
    [(AndWord, And)],
    [(Less, Lt), (Greater, Gt), (LessEqual, Le), (GreaterEqual, Ge), (NotEqual, Ne), (Equal, Eq)],
    [(Dots, Concat)],
    [(Plus, Add), (Dash, Sub)],
    [(Star, Mul), (Slash, Div), (Percent, Mod)],
    [(Caret, Pow)]]

  const PREFIXES: seq<(Token, UnOp)> := [(NotWord, Not), (Dash, Minus), (Hash, Len)]

  /** `t` is the token of `op`, which is on level `n`. */
  predicate OnLevel(t: Token, op: BinOp, n: nat) {
    n < |LEVELS| && (t, op) in LEVELS[n]
  }

  predicate IsPrefix(t: Token, u: UnOp) {
    (t, u) in PREFIXES
  }

  /** The second of two operators takes the operand between them: it is on a later
      level, or both concatenate, or both are powers. */
  predicate Tighter(n1: nat, n2: nat)
    requires n1 < |LEVELS|
  {
    n2 > n1 || (n1 == n2 && LEVELS[n1] in [[(Dots, Concat)], [(Caret, Pow)]])
  }

  lemma TokenOnLevel(t: Token, op: BinOp, n: nat)
    requires OnLevel(t, op, n)
    ensures t == BinToken(op) && GetBinOpr(t) == Some(op) && Left(op) >= 1
    ensures Left(op) > 8 <==> n == 6
  {
    var i :| 0 <= i < |LEVELS[n]| && LEVELS[n][i] == (t, op);
  }

  lemma PrefixToken(t: Token, u: UnOp)
    requires IsPrefix(t, u)
    ensures t == UnToken(u) && GetUnOpr(t) == Some(u)
  {
    var i :| 0 <= i < |PREFIXES| && PREFIXES[i] == (t, u);
  }

  /** The tokens of the lists are all there are. */
  lemma AllTokens(t: Token)
    ensures GetBinOpr(t).Some? <==> exists n, op :: OnLevel(t, op, n)
    ensures GetUnOpr(t).Some? <==> exists u :: IsPrefix(t, u)
  {
    if GetBinOpr(t).Some? {
      var op := GetBinOpr(t).value;
      var n := LevelOf(op);
      assert OnLevel(t, op, n);
    }
    if n, op :| OnLevel(t, op, n) {
      TokenOnLevel(t, op, n);
    }
    if GetUnOpr(t).Some? {
      var u := GetUnOpr(t).value;
      assert PREFIXES[if u == Not then 0 else if u == Minus then 1 else 2] == (t, u);
      assert IsPrefix(t, u);
    }
    if u :| IsPrefix(t, u) {
      PrefixToken(t, u);
    }
  }

  lemma LevelOf(op: BinOp) returns (n: nat)
    ensures OnLevel(BinToken(op), op, n)
  {
    n := match op
      case Or => 0
      case And => 1
      case Lt | Gt | Le | Ge | Ne | Eq => 2
      case Concat => 3
      case Add | Sub => 4
      case Mul | Div | Mod => 5
      case Pow => 6;
    var i := match op
      case Or | And | Concat | Pow | Lt | Add | Mul => 0
      case Gt | Sub | Div => 1
      case Le | Mod => 2
      case Ge => 3
      case Ne => 4
      case Eq => 5;
    assert LEVELS[n][i] == (BinToken(op), op);
  }

  /** What the priorities say is what the levels say. */
  lemma LevelsDecide(t1: Token, op1: BinOp, n1: nat, t2: Token, op2: BinOp, n2: nat)
    requires OnLevel(t1, op1, n1) && OnLevel(t2, op2, n2)
    ensures Left(op2) > Right(op1) <==> Tighter(n1, n2)
  {
    PriorityOf(t1, op1, n1);
    PriorityOf(t2, op2, n2);
    hide OnLevel;
  }

  lemma PriorityOf(t: Token, op: BinOp, n: nat)
    requires OnLevel(t, op, n)
    ensures Left(op) == [1, 2, 3, 5, 6, 7, 10][n] && Right(op) == [1, 2, 3, 4, 6, 7, 9][n]
  {
    OpOnLevel(t, op, n);
    hide OnLevel;
  }

  lemma OpOnLevel(t: Token, op: BinOp, n: nat)
    requires OnLevel(t, op, n)
    ensures n < 7 && op in [{Or}, {And}, {Lt, Gt, Le, Ge, Ne, Eq}, {Concat}, {Add, Sub}, {Mul, Div, Mod}, {Pow}][n]
  {
    var i :| 0 <= i < |LEVELS[n]| && LEVELS[n][i] == (t, op);
  }

  /** The tokens of an allowed tree are read as the tree. */
  lemma ReadBack(e: Expr, toks: seq<Token>)
    requires toks == Tokens(e) && Fits(e, 0) && Depth(e) <= 200
    ensures SubExpr(toks, 0, 0) == Parsed(e, [])
  {
    hide Tokens, Fits, Edge, Depth, SubExpr;
    assert toks == Tokens(e) + [];
    SubExprIff(toks, 0, e, []);
  }

  /** Two atoms with an operator, and one behind a prefix operator. */
  lemma Small(op: BinOp, u: UnOp, a: int, b: int)
    ensures Tokens(Binary(op, Atom(a), Atom(b))) == [AtomOf(a), BinToken(op), AtomOf(b)]
    ensures Tokens(Unary(u, Atom(a))) == [UnToken(u), AtomOf(a)]
    ensures Fits(Binary(op, Atom(a), Atom(b)), 0) && Depth(Binary(op, Atom(a), Atom(b))) == 2
    ensures op == Pow ==> Fits(Binary(op, Atom(a), Atom(b)), 8)
    ensures Edge(Binary(op, Atom(a), Atom(b))) == Right(op)
    ensures Fits(Unary(u, Atom(a)), 0) && Depth(Unary(u, Atom(a))) == 2 && Edge(Unary(u, Atom(a))) == 8
  {
  }

  /** Two operators in a row. */
  lemma Grouping(t1: Token, op1: BinOp, n1: nat, t2: Token, op2: BinOp, n2: nat, a: int, b: int, c: int)
    requires OnLevel(t1, op1, n1) && OnLevel(t2, op2, n2)
    ensures SubExpr([AtomOf(a), t1, AtomOf(b), t2, AtomOf(c)], 0, 0) == Parsed(
      if Tighter(n1, n2) then Binary(op1, Atom(a), Binary(op2, Atom(b), Atom(c)))
      else Binary(op2, Binary(op1, Atom(a), Atom(b)), Atom(c)), [])
  {
    TokenOnLevel(t1, op1, n1);
    TokenOnLevel(t2, op2, n2);
    LevelsDecide(t1, op1, n1, t2, op2, n2);
    hide OnLevel, Tighter, SubExpr;
    Group(op1, op2, Atom(a), Atom(b), Atom(c), [AtomOf(a), t1, AtomOf(b), t2, AtomOf(c)]);
  }

  /** Three operands that the two operators leave whole. */
  lemma Group(op1: BinOp, op2: BinOp, x: Expr, y: Expr, z: Expr, toks: seq<Token>)
    requires toks == Tokens(x) + [BinToken(op1)] + Tokens(y) + [BinToken(op2)] + Tokens(z)
    requires Fits(x, 0) && Left(op1) <= Edge(x) && Fits(y, Right(op1)) && Left(op2) <= Edge(y) && Fits(z, Right(op2))
    requires Left(op1) > 0 && Left(op2) > 0 && Depth(x) <= 100 && Depth(y) <= 100 && Depth(z) <= 100
    ensures SubExpr(toks, 0, 0) == Parsed(
      if Left(op2) > Right(op1) then Binary(op1, x, Binary(op2, y, z)) else Binary(op2, Binary(op1, x, y), z), [])
  {
    SameTokens(op1, op2, x, y, z);
    if Left(op2) > Right(op1) {
      var e1 := Binary(op2, y, z);
      var e := Binary(op1, x, e1);
      assert Fits(e1, Right(op1)) && Depth(e1) <= 101;
      assert Fits(e, 0) && Depth(e) <= 102;
      ReadBack(e, toks);
    } else {
      var e1 := Binary(op1, x, y);
      var e := Binary(op2, e1, z);
      assert Fits(e1, 0) && Depth(e1) <= 101 && Edge(e1) == Min(Right(op1), Edge(y));
      assert Fits(e, 0) && Depth(e) <= 102;
      ReadBack(e, toks);
    }
  }

  lemma SameTokens(op1: BinOp, op2: BinOp, x: Expr, y: Expr, z: Expr)
    ensures Tokens(Binary(op1, x, Binary(op2, y, z)))
      == Tokens(x) + [BinToken(op1)] + Tokens(y) + [BinToken(op2)] + Tokens(z)
    ensures Tokens(Binary(op2, Binary(op1, x, y), z))
      == Tokens(x) + [BinToken(op1)] + Tokens(y) + [BinToken(op2)] + Tokens(z)
  {
    var a, b, c, p, q := Tokens(x), Tokens(y), Tokens(z), [BinToken(op1)], [BinToken(op2)];
    assert a + p + (b + q + c) == a + p + b + q + c;
  }

  /** A prefix operator in front takes the operand alone, but for a power. */
  lemma PrefixFirst(tu: Token, u: UnOp, t: Token, op: BinOp, n: nat, a: int, b: int)
    requires IsPrefix(tu, u) && OnLevel(t, op, n)
    ensures SubExpr([tu, AtomOf(a), t, AtomOf(b)], 0, 0) == Parsed(
      if op == Pow then Unary(u, Binary(op, Atom(a), Atom(b))) else Binary(op, Unary(u, Atom(a)), Atom(b)), [])
  {
    PrefixToken(tu, u);
    TokenOnLevel(t, op, n);
    hide OnLevel, IsPrefix, SubExpr;
    var toks := [tu, AtomOf(a), t, AtomOf(b)];
    Small(op, u, a, b);
    if op == Pow {
      ReadBack(Unary(u, Binary(op, Atom(a), Atom(b))), toks);
    } else {
      ReadBack(Binary(op, Unary(u, Atom(a)), Atom(b)), toks);
    }
  }

  /** A prefix operator behind another operator is taken first; two of them apply
      one after the other. */
  lemma PrefixSecond(tu: Token, u: UnOp, t: Token, op: BinOp, n: nat, a: int, b: int)
    requires IsPrefix(tu, u) && OnLevel(t, op, n)
    ensures SubExpr([AtomOf(a), t, tu, AtomOf(b)], 0, 0) == Parsed(Binary(op, Atom(a), Unary(u, Atom(b))), [])
  {
    PrefixToken(tu, u);
    TokenOnLevel(t, op, n);
    hide OnLevel, IsPrefix, SubExpr;
    Small(op, u, b, b);
    ReadBack(Binary(op, Atom(a), Unary(u, Atom(b))), [AtomOf(a), t, tu, AtomOf(b)]);
  }

  lemma PrefixTwice(t1: Token, u1: UnOp, t2: Token, u2: UnOp, a: int)
    requires IsPrefix(t1, u1) && IsPrefix(t2, u2)
    ensures SubExpr([t1, t2, AtomOf(a)], 0, 0) == Parsed(Unary(u1, Unary(u2, Atom(a))), [])
  {
    PrefixToken(t1, u1);
    PrefixToken(t2, u2);
    hide IsPrefix, SubExpr;
    Small(Or, u2, a, a);
    ReadBack(Unary(u1, Unary(u2, Atom(a))), [t1, t2, AtomOf(a)]);
  }

  /** A prefix operator between two others: it takes a power that follows, and is
      an operand of the other two in any other case. */
  lemma PrefixBetween(t1: Token, op1: BinOp, n1: nat, tu: Token, u: UnOp, t2: Token, op2: BinOp, n2: nat, a: int,
      b: int, c: int)
    requires OnLevel(t1, op1, n1) && IsPrefix(tu, u) && OnLevel(t2, op2, n2)
    ensures SubExpr([AtomOf(a), t1, tu, AtomOf(b), t2, AtomOf(c)], 0, 0) == Parsed(
      if op2 == Pow then Binary(op1, Atom(a), Unary(u, Binary(op2, Atom(b), Atom(c))))
      else if Tighter(n1, n2) then Binary(op1, Atom(a), Binary(op2, Unary(u, Atom(b)), Atom(c)))
      else Binary(op2, Binary(op1, Atom(a), Unary(u, Atom(b))), Atom(c)), [])
  {
    TokenOnLevel(t1, op1, n1);
    PrefixToken(tu, u);
    TokenOnLevel(t2, op2, n2);
    LevelsDecide(t1, op1, n1, t2, op2, n2);
    hide OnLevel, IsPrefix, Tighter, SubExpr, Left, Right, BinToken, UnToken;
    var toks := [AtomOf(a), t1, tu, AtomOf(b), t2, AtomOf(c)];
    if op2 == Pow {
      PowerBetween(op1, u, a, b, c, toks);
    } else {
      GroupAround(op1, op2, u, a, b, c, toks);
    }
  }

  lemma GroupAround(op1: BinOp, op2: BinOp, u: UnOp, a: int, b: int, c: int, toks: seq<Token>)
    requires Left(op1) >= 1 && 1 <= Left(op2) <= 8
    requires toks == [AtomOf(a), BinToken(op1), UnToken(u), AtomOf(b), BinToken(op2), AtomOf(c)]
    ensures SubExpr(toks, 0, 0) == Parsed(
      if Left(op2) > Right(op1) then Binary(op1, Atom(a), Binary(op2, Unary(u, Atom(b)), Atom(c)))
      else Binary(op2, Binary(op1, Atom(a), Unary(u, Atom(b))), Atom(c)), [])
  {
    hide SubExpr;
    Small(op2, u, b, c);
    Group(op1, op2, Atom(a), Unary(u, Atom(b)), Atom(c), toks);
  }

  lemma PowerBetween(op1: BinOp, u: UnOp, a: int, b: int, c: int, toks: seq<Token>)
    requires Left(op1) >= 1 && toks == [AtomOf(a), BinToken(op1), UnToken(u), AtomOf(b), BinToken(Pow), AtomOf(c)]
    ensures SubExpr(toks, 0, 0) == Parsed(Binary(op1, Atom(a), Unary(u, Binary(Pow, Atom(b), Atom(c)))), [])
  {
    hide SubExpr;
    Small(Pow, u, b, c);
    var e1 := Unary(u, Binary(Pow, Atom(b), Atom(c)));
    assert Tokens(e1) == [UnToken(u), AtomOf(b), BinToken(Pow), AtomOf(c)] && Fits(e1, Right(op1)) && Depth(e1) == 3;
    ReadBack(Binary(op1, Atom(a), e1), toks);
  }

  /** Parentheses group first, on either side. */
  lemma Parentheses(t1: Token, op1: BinOp, n1: nat, t2: Token, op2: BinOp, n2: nat, a: int, b: int, c: int)
    requires OnLevel(t1, op1, n1) && OnLevel(t2, op2, n2)
    ensures SubExpr([Opening, AtomOf(a), t1, AtomOf(b), Closing, t2, AtomOf(c)], 0, 0)
      == Parsed(Binary(op2, Paren(Binary(op1, Atom(a), Atom(b))), Atom(c)), [])
    ensures SubExpr([AtomOf(a), t1, Opening, AtomOf(b), t2, AtomOf(c), Closing], 0, 0)
      == Parsed(Binary(op1, Atom(a), Paren(Binary(op2, Atom(b), Atom(c)))), [])
  {
    TokenOnLevel(t1, op1, n1);
    TokenOnLevel(t2, op2, n2);
    hide OnLevel, SubExpr;
    ParensLeft(op1, op2, a, b, c);
    ParensRight(op1, op2, a, b, c);
  }

  lemma ParensLeft(op1: BinOp, op2: BinOp, a: int, b: int, c: int)
    requires Left(op1) >= 1 && Left(op2) >= 1
    ensures SubExpr([Opening, AtomOf(a), BinToken(op1), AtomOf(b), Closing, BinToken(op2), AtomOf(c)], 0, 0)
      == Parsed(Binary(op2, Paren(Binary(op1, Atom(a), Atom(b))), Atom(c)), [])
  {
    hide SubExpr;
    Small(op1, Minus, a, b);
    var e1 := Paren(Binary(op1, Atom(a), Atom(b)));
    assert Tokens(e1) == [Opening, AtomOf(a), BinToken(op1), AtomOf(b), Closing] && Depth(e1) == 3;
    ReadBack(Binary(op2, e1, Atom(c)), [Opening, AtomOf(a), BinToken(op1), AtomOf(b), Closing, BinToken(op2), AtomOf(c)]);
  }

  lemma ParensRight(op1: BinOp, op2: BinOp, a: int, b: int, c: int)
    requires Left(op1) >= 1 && Left(op2) >= 1
    ensures SubExpr([AtomOf(a), BinToken(op1), Opening, AtomOf(b), BinToken(op2), AtomOf(c), Closing], 0, 0)
      == Parsed(Binary(op1, Atom(a), Paren(Binary(op2, Atom(b), Atom(c)))), [])
  {
    hide SubExpr;
    Small(op2, Minus, b, c);
    var e2 := Paren(Binary(op2, Atom(b), Atom(c)));
    assert Tokens(e2) == [Opening, AtomOf(b), BinToken(op2), AtomOf(c), Closing] && Depth(e2) == 3;
    ReadBack(Binary(op1, Atom(a), e2), [AtomOf(a), BinToken(op1), Opening, AtomOf(b), BinToken(op2), AtomOf(c), Closing]);
  }

  // ----- nesting -----

  function Nested(k: nat, a: int): Expr {
    if k == 0 then Atom(a) else Paren(Nested(k - 1, a))
  }

  function Parens(k: nat, a: int): seq<Token> {
    seq(k, _ => Opening) + [AtomOf(a)] + seq(k, _ => Closing)
  }

  lemma {:induction false} NestedIs(k: nat, a: int)
    ensures Tokens(Nested(k, a)) == Parens(k, a) && Fits(Nested(k, a), 0) && Depth(Nested(k, a)) == k + 1
    decreases k
  {
    if k > 0 {
      NestedIs(k - 1, a);
      assert seq(k, _ => Opening) == [Opening] + seq(k - 1, _ => Opening);
      assert seq(k, _ => Closing) == seq(k - 1, _ => Closing) + [Closing];
      assert Parens(k, a) == [Opening] + Parens(k - 1, a) + [Closing];
    }
  }

  /** Up to 199 parentheses may nest. */
  lemma NestingLimit(k: nat, a: int)
    ensures SubExpr(Parens(k, a), 0, 0) == Parsed(Nested(k, a), []) <==> k <= 199
  {
    NestedIs(k, a);
    hide Tokens, Fits, Edge, Depth, SubExpr, Parens;
    assert Parens(k, a) == Tokens(Nested(k, a)) + [];
    SubExprIff(Parens(k, a), 0, Nested(k, a), []);
    assert Ends([], Min(0, Edge(Nested(k, a))));
  }
}
