/** The texts that are JSON, as trees of tokens: the decoder accepts exactly
    these, and returns the value of the tree. */
module JsonGrammar {
  import opened JsonText

  datatype Tree = Leaf(tok: Token) | Arr(items: seq<Tree>) | Obj(fields: seq<Field>)

  datatype Field = Field(key: string, val: Tree)

  predicate IsScalar(tok: Token) {
    tok.StringToken? || tok.NumberToken? || tok.BoolToken? || tok.NullToken?
  }

  predicate TreeOk(t: Tree)
    decreases t
  {
    match t
    case Leaf(tok) => IsScalar(tok)
    case Arr(items) => forall i :: 0 <= i < |items| ==> TreeOk(items[i])
    case Obj(fields) => forall i :: 0 <= i < |fields| ==> TreeOk(fields[i].val)
  }

  /** How deep arrays and objects nest. */
  function Height(t: Tree): nat
    decreases t, 0
  {
    match t
    case Leaf(_) => 0
    case Arr(items) => 1 + HighestOf(t, |items|)
    case Obj(fields) => 1 + HighestOf(t, |fields|)
  }

  function Children(t: Tree): nat {
    match t
    case Leaf(_) => 0
    case Arr(items) => |items|
    case Obj(fields) => |fields|
  }

  function Child(t: Tree, i: nat): (c: Tree)
    requires i < Children(t)
    ensures c < t
  {
    if t.Arr? then t.items[i] else t.fields[i].val
  }

  function HighestOf(t: Tree, n: nat): nat
    requires n <= Children(t)
    decreases t, 0, n
  {
    if n == 0 then 0
    else
      var a, b := HighestOf(t, n - 1), Height(Child(t, n - 1));
      if a > b then a else b
  }

  /** The tokens of a tree: between brackets, with commas between the parts and a
      colon behind each key. */
  function TokensOf(t: Tree): (toks: seq<Token>)
    ensures toks != []
    decreases t, 1, 0
  {
    match t
    case Leaf(tok) => [tok]
    case Arr(items) => [ArrBegin] + PartsFrom(t, 0) + [ArrEnd]
    case Obj(fields) => [ObjBegin] + PartsFrom(t, 0) + [ObjEnd]
  }

  /** The parts from `i` on. */
  function PartsFrom(t: Tree, i: nat): (toks: seq<Token>)
    requires i <= Children(t)
    ensures i < Children(t) ==> toks != []
    decreases t, 0, Children(t) - i
  {
    if i == Children(t) then []
    else KeyTokens(t, i) + TokensOf(Child(t, i)) + (if i + 1 < Children(t) then [Comma] + PartsFrom(t, i + 1) else [])
  }

  function KeyTokens(t: Tree, i: nat): seq<Token>
    requires i < Children(t)
  {
    if t.Obj? then [StringToken(t.fields[i].key), Colon] else []
  }

  /** The value of a tree. Of two fields with the same key the last one counts. */
  function ValueOf(t: Tree): Value
    requires TreeOk(t)
    decreases t, 1, 0
  {
    match t
    case Leaf(StringToken(s)) => Str(s)
    case Leaf(NumberToken(n)) => Number(n)
    case Leaf(BoolToken(b)) => Bool(b)
    case Leaf(NullToken) => Null
    case _ => Table(EntriesOf(t, Children(t)))
  }

  /** The entries of the first `n` parts. */
  function EntriesOf(t: Tree, n: nat): seq<Entry>
    requires TreeOk(t) && n <= Children(t)
    decreases t, 0, n
  {
    if n == 0 then []
    else SetEntry(EntriesOf(t, n - 1), if t.Arr? then Index(n) else Name(t.fields[n - 1].key), ValueOf(Child(t, n - 1)))
  }

  /** The scanner gives these tokens from `p` on, and then is at `q`. */
  predicate Lexes(cfg: Config, text: string, p: nat, toks: seq<Token>, q: nat)
    decreases |toks|
  {
    if toks == [] then p == q
    else p <= |text| && Lex(cfg, text, p).tok == toks[0] && Lexes(cfg, text, Lex(cfg, text, p).next, toks[1..], q)
  }

  lemma {:induction false} LexesSplit(cfg: Config, text: string, p: nat, a: seq<Token>, b: seq<Token>, q: nat)
    ensures Lexes(cfg, text, p, a + b, q) <==> exists m: nat :: Lexes(cfg, text, p, a, m) && Lexes(cfg, text, m, b, q)
    decreases |a|
  {
    if a == [] {
      assert a + b == b;
      assert Lexes(cfg, text, p, a, p);
    } else {
      assert (a + b)[1..] == a[1..] + b;
      if p <= |text| {
        LexesSplit(cfg, text, Lex(cfg, text, p).next, a[1..], b, q);
      }
    }
  }

  lemma {:induction false} LexesEnd(cfg: Config, text: string, p: nat, toks: seq<Token>, q: nat)
    requires Lexes(cfg, text, p, toks, q) && p <= |text|
    ensures q <= |text|
    decreases |toks|
  {
    if toks != [] {
      LexesEnd(cfg, text, Lex(cfg, text, p).next, toks[1..], q);
    }
  }

  /** The token `l` and what is scanned behind it are these tokens. */
  predicate Starts(cfg: Config, text: string, l: Lexed, toks: seq<Token>, q: nat) {
    toks != [] && l.next <= |text| && toks[0] == l.tok && Lexes(cfg, text, l.next, toks[1..], q)
  }

  lemma StartsSplit(cfg: Config, text: string, l: Lexed, a: seq<Token>, b: seq<Token>, q: nat)
    requires a != []
    ensures Starts(cfg, text, l, a + b, q) <==> exists m: nat :: Starts(cfg, text, l, a, m) && Lexes(cfg, text, m, b, q)
  {
    assert (a + b)[1..] == a[1..] + b;
    LexesSplit(cfg, text, l.next, a[1..], b, q);
  }

  lemma StartsIs(cfg: Config, text: string, p: nat, toks: seq<Token>, q: nat)
    requires p <= |text| && toks != []
    ensures Starts(cfg, text, Lex(cfg, text, p), toks, q) <==> Lexes(cfg, text, p, toks, q)
  {
  }

  /** One more token. */
  lemma LexesOne(cfg: Config, text: string, p: nat, tok: Token, toks: seq<Token>, q: nat)
    requires p <= |text|
    ensures Lexes(cfg, text, p, [tok] + toks, q)
      <==> Lex(cfg, text, p).tok == tok && Lexes(cfg, text, Lex(cfg, text, p).next, toks, q)
  {
    assert ([tok] + toks)[1..] == toks;
  }

  // ----- parts of trees -----

  lemma {:induction false} HighestBound(t: Tree, n: nat, b: nat)
    requires n <= Children(t)
    ensures HighestOf(t, n) <= b <==> forall i :: 0 <= i < n ==> Height(Child(t, i)) <= b
    decreases n
  {
    if n > 0 {
      HighestBound(t, n - 1, b);
    }
  }

  lemma {:induction false} EntriesSame(t: Tree, t': Tree, n: nat)
    requires TreeOk(t) && TreeOk(t') && n <= Children(t) && n <= Children(t') && (t.Arr? <==> t'.Arr?) && !t.Leaf?
    requires !t'.Leaf? && forall i :: 0 <= i < n ==> Child(t, i) == Child(t', i)
    requires t.Obj? ==> forall i :: 0 <= i < n ==> t.fields[i].key == t'.fields[i].key
    ensures EntriesOf(t, n) == EntriesOf(t', n)
    decreases n
  {
    if n > 0 {
      EntriesSame(t, t', n - 1);
    }
  }

  lemma {:induction false} ItemEntries(t: Tree, n: nat)
    requires TreeOk(t) && t.Arr? && n <= Children(t)
    ensures |EntriesOf(t, n)| == n && forall i :: 0 <= i < n ==> EntriesOf(t, n)[i] == Entry(Index(i + 1), ValueOf(t.items[i]))
    decreases n
  {
    if n > 0 {
      ItemEntries(t, n - 1);
      SetNew(EntriesOf(t, n - 1), Index(n), ValueOf(Child(t, n - 1)));
    }
  }

  // ----- what is decoded has a tree -----

  /** All parts of an array or object are trees, no higher than `max`. */
  ghost predicate Parts(t: Tree, max: int) {
    true <==> (!t.Leaf? && TreeOk(t) && forall i :: 0 <= i < Children(t) ==> Height(Child(t, i)) <= max)
  }

  lemma PartsOk(t: Tree, max: int)
    requires Parts(t, max)
    ensures !t.Leaf? && TreeOk(t)
    ensures max >= 0 ==> Height(t) <= 1 + max
  {
    if max >= 0 {
      HighestBound(t, Children(t), max);
    }
  }

  /** The tokens of the parts from `i` on and of the closing bracket. */
  function PartsAndEnd(t: Tree, i: nat): (toks: seq<Token>)
    requires i < Children(t)
    ensures toks != []
  {
    PartsFrom(t, i) + [if t.Arr? then ArrEnd else ObjEnd]
  }

  lemma PartsNext(t: Tree, i: nat)
    requires i < Children(t)
    ensures i + 1 < Children(t) ==> PartsAndEnd(t, i) == KeyTokens(t, i) + TokensOf(Child(t, i)) + ([Comma] + PartsAndEnd(t, i + 1))
    ensures i + 1 == Children(t) ==>
      PartsAndEnd(t, i) == KeyTokens(t, i) + TokensOf(Child(t, i)) + [if t.Arr? then ArrEnd else ObjEnd]
  {
    hide TokensOf;
    var end := [if t.Arr? then ArrEnd else ObjEnd];
    var a := KeyTokens(t, i) + TokensOf(Child(t, i));
    if i + 1 < Children(t) {
      assert a + ([Comma] + PartsFrom(t, i + 1)) + end == a + ([Comma] + (PartsFrom(t, i + 1) + end));
    } else {
      assert a + [] + end == a + end;
    }
  }

  lemma TokensParts(t: Tree)
    requires !t.Leaf? && Children(t) > 0
    ensures TokensOf(t) == [if t.Arr? then ArrBegin else ObjBegin] + PartsAndEnd(t, 0)
  {
    hide PartsFrom;
    assert TokensOf(t) == [if t.Arr? then ArrBegin else ObjBegin] + PartsFrom(t, 0) + [if t.Arr? then ArrEnd else ObjEnd];
  }

  /** A part, and a comma and more parts, or the end. */
  lemma PartStarts(cfg: Config, text: string, l: Lexed, t: Tree, i: nat, a: seq<Token>, m: nat, q: nat)
    requires i < Children(t) && a == KeyTokens(t, i) + TokensOf(Child(t, i)) && Starts(cfg, text, l, a, m) && m <= |text|
    requires i + 1 == Children(t) ==> Lex(cfg, text, m) == Lexed(if t.Arr? then ArrEnd else ObjEnd, q)
    requires i + 1 < Children(t) ==> Lex(cfg, text, m).tok == Comma
    requires i + 1 < Children(t) ==>
      Starts(cfg, text, Lex(cfg, text, Lex(cfg, text, m).next), PartsAndEnd(t, i + 1), q)
    ensures Starts(cfg, text, l, PartsAndEnd(t, i), q)
  {
    PartsNext(t, i);
    hide TokensOf, PartsAndEnd, Lex, KeyTokens, Starts, Lexes;
    if i + 1 == Children(t) {
      var end := if t.Arr? then ArrEnd else ObjEnd;
      LexesNothing(cfg, text, q);
      LexesOne(cfg, text, m, end, [], q);
      assert [end] + [] == [end];
      StartsSplit(cfg, text, l, a, [end], q);
    } else {
      var more := PartsAndEnd(t, i + 1);
      StartsIs(cfg, text, Lex(cfg, text, m).next, more, q);
      LexesOne(cfg, text, m, Comma, more, q);
      StartsSplit(cfg, text, l, a, [Comma] + more, q);
    }
  }

  lemma LexesNothing(cfg: Config, text: string, q: nat)
    ensures Lexes(cfg, text, q, [], q)
  {
  }

  lemma {:induction false} ValueSound(cfg: Config, text: string, l: Lexed, depth: nat) returns (t: Tree)
    requires l.next <= |text| && depth <= cfg.decodeMaxDepth && DecodeValue(cfg, text, l, depth).Decoded?
    ensures TreeOk(t) && depth + Height(t) <= cfg.decodeMaxDepth
    ensures Starts(cfg, text, l, TokensOf(t), DecodeValue(cfg, text, l, depth).next)
    ensures ValueOf(t) == DecodeValue(cfg, text, l, depth).v
    decreases |text| - l.next, 1
  {
    if IsScalar(l.tok) {
      t := Leaf(l.tok);
    } else if l.tok == ArrBegin {
      t := ArraySound(cfg, text, l, depth);
    } else {
      t := ObjectSound(cfg, text, l, depth);
    }
  }

  lemma {:induction false} ObjectSound(cfg: Config, text: string, l: Lexed, depth: nat) returns (t: Tree)
    requires l.next <= |text| && depth <= cfg.decodeMaxDepth && DecodeValue(cfg, text, l, depth).Decoded?
    requires l.tok == ObjBegin
    ensures TreeOk(t) && depth + Height(t) <= cfg.decodeMaxDepth
    ensures Starts(cfg, text, l, TokensOf(t), DecodeValue(cfg, text, l, depth).next)
    ensures ValueOf(t) == DecodeValue(cfg, text, l, depth).v
    decreases |text| - l.next, 0
  {
    var first, d := Lex(cfg, text, l.next), DecodeValue(cfg, text, l, depth);
    assert depth + 1 <= cfg.decodeMaxDepth;
    if first.tok == ObjEnd {
      t := Obj([]);
      EmptyStarts(cfg, text, l, t, first.next);
    } else {
      ObjectStarts(cfg, text, l.next, depth + 1, first, d);
      hide Lex, DecodeValue, DecodeFields, TokensOf;
      NoItems();
      var fields := FieldsSound(cfg, text, first, [], [], depth + 1, d);
      assert FieldsFound(cfg, text, first, [], fields, cfg.decodeMaxDepth - depth - 1, d);
      t := Obj(fields);
      PartsOk(t, cfg.decodeMaxDepth - depth - 1);
      TokensParts(t);
      var toks := PartsAndEnd(t, 0);
      StartsIs(cfg, text, l.next, toks, d.next);
      assert ([ObjBegin] + toks)[1..] == toks;
    }
  }

  lemma Begins<T>(pre: seq<T>, x: T, all: seq<T>)
    requires pre + [x] <= all
    ensures pre <= all && |pre| < |all| && all[|pre|] == x
  {
    assert (pre + [x])[|pre|] == all[|pre|];
  }

  /** What a round of the loop over the fields has read. */
  lemma FieldDecoded(cfg: Config, text: string, l: Lexed, entries: seq<Entry>, depth: nat)
    requires l.next <= |text| && DecodeFields(cfg, text, l, entries, depth).Decoded?
    ensures l.tok.StringToken? && Lex(cfg, text, l.next).tok == Colon
    ensures var one := DecodeValue(cfg, text, Lex(cfg, text, Lex(cfg, text, l.next).next), depth);
      && one.Decoded?
      && var sep, now := Lex(cfg, text, one.next), SetEntry(entries, Name(l.tok.s), one.v);
      && (sep.tok == ObjEnd || sep.tok == Comma)
      && DecodeFields(cfg, text, l, entries, depth) == if sep.tok == ObjEnd then Decoded(Table(now), sep.next)
        else DecodeFields(cfg, text, Lex(cfg, text, sep.next), now, depth)
  {
    hide Lex, DecodeValue, SetEntry;
    FieldsUnfold(cfg, text, l, entries, depth);
    hide DecodeFields;
  }

  lemma ItemDecoded(cfg: Config, text: string, l: Lexed, entries: seq<Entry>, depth: nat)
    requires l.next <= |text| && DecodeItems(cfg, text, l, entries, depth).Decoded?
    ensures var one := DecodeValue(cfg, text, l, depth);
      && one.Decoded?
      && var sep, now := Lex(cfg, text, one.next), SetEntry(entries, Index(|entries| + 1), one.v);
      && (sep.tok == ArrEnd || sep.tok == Comma)
      && DecodeItems(cfg, text, l, entries, depth) == if sep.tok == ArrEnd then Decoded(Table(now), sep.next)
        else DecodeItems(cfg, text, Lex(cfg, text, sep.next), now, depth)
  {
    hide Lex, DecodeValue, SetEntry;
    ItemsUnfold(cfg, text, l, entries, depth);
    hide DecodeItems;
  }

  /** The loop over the fields: those before it, `pre`, and some more. */
  lemma {:induction false} FieldsSound(cfg: Config, text: string, l: Lexed, pre: seq<Field>, entries: seq<Entry>,
      depth: nat, d: Decoded) returns (fields: seq<Field>)
    requires l.next <= |text| && depth <= cfg.decodeMaxDepth && Parts(Obj(pre), cfg.decodeMaxDepth - depth)
    requires TreeOk(Obj(pre)) && entries == EntriesOf(Obj(pre), |pre|)
    requires d.Decoded? && d == DecodeFields(cfg, text, l, entries, depth)
    ensures FieldsFound(cfg, text, l, pre, fields, cfg.decodeMaxDepth - depth, d)
    decreases |text| - l.next, 2
  {
    hide *;
    FieldDecoded(cfg, text, l, entries, depth);
    var at := Lex(cfg, text, Lex(cfg, text, l.next).next);
    var one := DecodeValue(cfg, text, at, depth);
    var x := ValueSound(cfg, text, at, depth);
    var now := pre + [Field(l.tok.s, x)];
    FieldAdded(pre, l.tok.s, x, cfg.decodeMaxDepth - depth);
    var more := EntriesOf(Obj(now), |now|);
    var sep := Lex(cfg, text, one.next);
    StartsValue(cfg, text, l, x, one.next);
    if sep.tok == ObjEnd {
      fields := now;
      FieldsEnd(cfg, text, l, pre, x, one.next, sep.next, cfg.decodeMaxDepth - depth, d);
    } else {
      fields := FieldsSound(cfg, text, Lex(cfg, text, sep.next), now, more, depth, d);
      FieldsMore(cfg, text, l, pre, x, fields, one.next, cfg.decodeMaxDepth - depth, d);
    }
  }

  /** The parts that were read, those before them among them. */
  ghost predicate FieldsFound(cfg: Config, text: string, l: Lexed, pre: seq<Field>, fields: seq<Field>, max: int, d: Decoded)
  {
    true <==> (
      && |pre| < |fields| && pre <= fields && Parts(Obj(fields), max) && TreeOk(Obj(fields)) && d.Decoded?
      && Starts(cfg, text, l, PartsAndEnd(Obj(fields), |pre|), d.next)
      && d.v == Table(EntriesOf(Obj(fields), |fields|))
    )
  }

  /** A key and the value behind its colon. */
  predicate StartsField(cfg: Config, text: string, l: Lexed, x: Tree, m: nat) {
    && l.tok.StringToken? && l.next <= |text| && Lex(cfg, text, l.next).tok == Colon && m <= |text|
    && Starts(cfg, text, Lex(cfg, text, Lex(cfg, text, l.next).next), TokensOf(x), m)
  }

  lemma StartsValue(cfg: Config, text: string, l: Lexed, x: Tree, m: nat)
    requires l.tok.StringToken? && l.next <= |text| && Lex(cfg, text, l.next).tok == Colon && m <= |text|
    requires Starts(cfg, text, Lex(cfg, text, Lex(cfg, text, l.next).next), TokensOf(x), m)
    ensures StartsField(cfg, text, l, x, m)
  {
  }

  lemma FieldsEnd(cfg: Config, text: string, l: Lexed, pre: seq<Field>, x: Tree, m: nat, q: nat, max: int, d: Decoded)
    requires StartsField(cfg, text, l, x, m) && Lex(cfg, text, m) == Lexed(ObjEnd, q)
    requires Parts(Obj(pre + [Field(l.tok.s, x)]), max) && TreeOk(Obj(pre + [Field(l.tok.s, x)]))
    requires d == Decoded(Table(EntriesOf(Obj(pre + [Field(l.tok.s, x)]), |pre| + 1)), q)
    ensures FieldsFound(cfg, text, l, pre, pre + [Field(l.tok.s, x)], max, d)
  {
    hide Starts, TokensOf, PartsAndEnd, KeyTokens, Lex, Parts, TreeOk, EntriesOf;
    var t := Obj(pre + [Field(l.tok.s, x)]);
    KeyStarts(cfg, text, l, t, |pre|, m);
    PartStarts(cfg, text, l, t, |pre|, KeyTokens(t, |pre|) + TokensOf(x), m, q);
  }

  lemma FieldsMore(cfg: Config, text: string, l: Lexed, pre: seq<Field>, x: Tree, fields: seq<Field>, m: nat, max: int,
      d: Decoded)
    requires StartsField(cfg, text, l, x, m) && Lex(cfg, text, m).tok == Comma
    requires FieldsFound(cfg, text, Lex(cfg, text, Lex(cfg, text, m).next), pre + [Field(l.tok.s, x)], fields, max, d)
    ensures FieldsFound(cfg, text, l, pre, fields, max, d)
  {
    hide Starts, TokensOf, PartsAndEnd, KeyTokens, Lex, Parts, TreeOk, EntriesOf;
    Begins(pre, Field(l.tok.s, x), fields);
    KeyStarts(cfg, text, l, Obj(fields), |pre|, m);
    PartStarts(cfg, text, l, Obj(fields), |pre|, KeyTokens(Obj(fields), |pre|) + TokensOf(x), m, d.next);
  }

  lemma FieldAdded(pre: seq<Field>, key: string, x: Tree, max: nat)
    requires Parts(Obj(pre), max) && TreeOk(x) && Height(x) <= max
    ensures Parts(Obj(pre + [Field(key, x)]), max) && TreeOk(Obj(pre)) && TreeOk(Obj(pre + [Field(key, x)]))
    ensures Children(Obj(pre)) == |pre| && Children(Obj(pre + [Field(key, x)])) == |pre| + 1
    ensures EntriesOf(Obj(pre + [Field(key, x)]), |pre| + 1)
      == SetEntry(EntriesOf(Obj(pre), |pre|), Name(key), ValueOf(x))
  {
    var t, t' := Obj(pre), Obj(pre + [Field(key, x)]);
    assert forall i :: 0 <= i < |pre| + 1 ==> TreeOk(t'.fields[i].val);
    EntriesSame(t', t, |pre|);
    assert Child(t', |pre|) == x;
    hide SetEntry;
  }

  /** A key, a colon and a value. */
  lemma KeyStarts(cfg: Config, text: string, l: Lexed, t: Tree, i: nat, m: nat)
    requires t.Obj? && i < Children(t) && l.tok == StringToken(t.fields[i].key) && l.next <= |text|
    requires Lex(cfg, text, l.next).tok == Colon
    requires Starts(cfg, text, Lex(cfg, text, Lex(cfg, text, l.next).next), TokensOf(t.fields[i].val), m)
    ensures Starts(cfg, text, l, KeyTokens(t, i) + TokensOf(Child(t, i)), m)
  {
    var a := TokensOf(t.fields[i].val);
    hide TokensOf, Lex;
    var toks := KeyTokens(t, i) + a;
    assert toks[1..] == [Colon] + a;
    StartsIs(cfg, text, Lex(cfg, text, l.next).next, a, m);
    LexesOne(cfg, text, l.next, Colon, a, m);
  }

  lemma {:induction false} ArraySound(cfg: Config, text: string, l: Lexed, depth: nat) returns (t: Tree)
    requires l.next <= |text| && depth <= cfg.decodeMaxDepth && DecodeValue(cfg, text, l, depth).Decoded?
    requires l.tok == ArrBegin
    ensures TreeOk(t) && depth + Height(t) <= cfg.decodeMaxDepth
    ensures Starts(cfg, text, l, TokensOf(t), DecodeValue(cfg, text, l, depth).next)
    ensures ValueOf(t) == DecodeValue(cfg, text, l, depth).v
    decreases |text| - l.next, 0
  {
    var first, d := Lex(cfg, text, l.next), DecodeValue(cfg, text, l, depth);
    assert depth + 1 <= cfg.decodeMaxDepth;
    if first.tok == ArrEnd {
      t := Arr([]);
      EmptyStarts(cfg, text, l, t, first.next);
    } else {
      ArrayStarts(cfg, text, l.next, depth + 1, first, d);
      hide Lex, DecodeValue, DecodeItems, TokensOf;
      NoItems();
      var items := ItemsSound(cfg, text, first, [], [], depth + 1, d);
      assert ItemsFound(cfg, text, first, [], items, cfg.decodeMaxDepth - depth - 1, d);
      t := Arr(items);
      PartsOk(t, cfg.decodeMaxDepth - depth - 1);
      TokensParts(t);
      var toks := PartsAndEnd(t, 0);
      StartsIs(cfg, text, l.next, toks, d.next);
      assert ([ArrBegin] + toks)[1..] == toks;
    }
  }

  lemma NoItems()
    ensures TreeOk(Arr([])) && EntriesOf(Arr([]), 0) == [] && TreeOk(Obj([])) && EntriesOf(Obj([]), 0) == []
    ensures Height(Arr([])) == 1 && Height(Obj([])) == 1 && forall max :: Parts(Arr([]), max) && Parts(Obj([]), max)
    ensures ValueOf(Arr([])) == Table([]) && ValueOf(Obj([])) == Table([])
  {
  }

  lemma EmptyStarts(cfg: Config, text: string, l: Lexed, t: Tree, q: nat)
    requires l.next <= |text| && ((t == Arr([]) && l.tok == ArrBegin && Lex(cfg, text, l.next) == Lexed(ArrEnd, q))
      || (t == Obj([]) && l.tok == ObjBegin && Lex(cfg, text, l.next) == Lexed(ObjEnd, q)))
    ensures TreeOk(t) && Height(t) == 1 && ValueOf(t) == Table([]) && Starts(cfg, text, l, TokensOf(t), q)
  {
    NoItems();
    var end := Lex(cfg, text, l.next).tok;
    assert PartsFrom(t, 0) == [];
    assert TokensOf(t) == [l.tok] + [] + [end];
    hide Lex, PartsFrom;
    LexesNothing(cfg, text, q);
    LexesOne(cfg, text, l.next, end, [], q);
    assert TokensOf(t)[1..] == [end] + [];
  }

  /** The loop over the items: those before it, `pre`, and some more. */
  lemma {:induction false} ItemsSound(cfg: Config, text: string, l: Lexed, pre: seq<Tree>, entries: seq<Entry>,
      depth: nat, d: Decoded) returns (items: seq<Tree>)
    requires l.next <= |text| && depth <= cfg.decodeMaxDepth && Parts(Arr(pre), cfg.decodeMaxDepth - depth)
    requires TreeOk(Arr(pre)) && entries == EntriesOf(Arr(pre), |pre|)
    requires d.Decoded? && d == DecodeItems(cfg, text, l, entries, depth)
    ensures ItemsFound(cfg, text, l, pre, items, cfg.decodeMaxDepth - depth, d)
    decreases |text| - l.next, 2
  {
    hide *;
    ItemDecoded(cfg, text, l, entries, depth);
    var one := DecodeValue(cfg, text, l, depth);
    var x := ValueSound(cfg, text, l, depth);
    var now := pre + [x];
    ItemAdded(pre, x, cfg.decodeMaxDepth - depth);
    var more := EntriesOf(Arr(now), |now|);
    var sep := Lex(cfg, text, one.next);
    if sep.tok == ArrEnd {
      items := now;
      ItemsEnd(cfg, text, l, pre, x, one.next, sep.next, cfg.decodeMaxDepth - depth, d);
    } else {
      items := ItemsSound(cfg, text, Lex(cfg, text, sep.next), now, more, depth, d);
      ItemsMore(cfg, text, l, pre, x, items, one.next, cfg.decodeMaxDepth - depth, d);
    }
  }

  /** The parts that were read, those before them among them. */
  ghost predicate ItemsFound(cfg: Config, text: string, l: Lexed, pre: seq<Tree>, items: seq<Tree>, max: int, d: Decoded)
  {
    true <==> (
      && |pre| < |items| && pre <= items && Parts(Arr(items), max) && TreeOk(Arr(items)) && d.Decoded?
      && Starts(cfg, text, l, PartsAndEnd(Arr(items), |pre|), d.next)
      && d.v == Table(EntriesOf(Arr(items), |items|))
    )
  }

  lemma ItemsEnd(cfg: Config, text: string, l: Lexed, pre: seq<Tree>, x: Tree, m: nat, q: nat, max: int, d: Decoded)
    requires Starts(cfg, text, l, TokensOf(x), m) && m <= |text| && Lex(cfg, text, m) == Lexed(ArrEnd, q)
    requires Parts(Arr(pre + [x]), max) && TreeOk(Arr(pre + [x]))
    requires d == Decoded(Table(EntriesOf(Arr(pre + [x]), |pre| + 1)), q)
    ensures ItemsFound(cfg, text, l, pre, pre + [x], max, d)
  {
    hide Starts, TokensOf, PartsAndEnd, KeyTokens, Lex, Parts, TreeOk, EntriesOf;
    var t := Arr(pre + [x]);
    ItemTokens(t, |pre|);
    PartStarts(cfg, text, l, t, |pre|, TokensOf(x), m, q);
  }

  lemma ItemsMore(cfg: Config, text: string, l: Lexed, pre: seq<Tree>, x: Tree, items: seq<Tree>, m: nat, max: int,
      d: Decoded)
    requires Starts(cfg, text, l, TokensOf(x), m) && m <= |text| && Lex(cfg, text, m).tok == Comma
    requires ItemsFound(cfg, text, Lex(cfg, text, Lex(cfg, text, m).next), pre + [x], items, max, d)
    ensures ItemsFound(cfg, text, l, pre, items, max, d)
  {
    hide Starts, TokensOf, PartsAndEnd, KeyTokens, Lex, Parts, TreeOk, EntriesOf;
    Begins(pre, x, items);
    ItemTokens(Arr(items), |pre|);
    PartStarts(cfg, text, l, Arr(items), |pre|, TokensOf(x), m, d.next);
  }

  lemma ItemTokens(t: Tree, i: nat)
    requires t.Arr? && i < Children(t)
    ensures KeyTokens(t, i) + TokensOf(Child(t, i)) == TokensOf(t.items[i]) && Child(t, i) == t.items[i]
  {
    hide TokensOf;
  }

  lemma ItemAdded(pre: seq<Tree>, x: Tree, max: nat)
    requires Parts(Arr(pre), max) && TreeOk(x) && Height(x) <= max
    ensures Parts(Arr(pre + [x]), max) && TreeOk(Arr(pre)) && TreeOk(Arr(pre + [x]))
    ensures Children(Arr(pre)) == |pre| && Children(Arr(pre + [x])) == |pre| + 1
    ensures var entries := EntriesOf(Arr(pre), |pre|);
      EntriesOf(Arr(pre + [x]), |pre| + 1) == SetEntry(entries, Index(|entries| + 1), ValueOf(x))
  {
    ItemOk(pre, x, max);
    hide TreeOk, Parts, Height, ValueOf, SetEntry, Child;
    var t, t' := Arr(pre), Arr(pre + [x]);
    ItemEntries(t, |pre|);
    EntriesSame(t', t, |pre|);
  }

  lemma ItemOk(pre: seq<Tree>, x: Tree, max: nat)
    requires Parts(Arr(pre), max) && TreeOk(x) && Height(x) <= max
    ensures Parts(Arr(pre + [x]), max) && TreeOk(Arr(pre)) && TreeOk(Arr(pre + [x]))
    ensures Children(Arr(pre)) == |pre| && Children(Arr(pre + [x])) == |pre| + 1
    ensures Child(Arr(pre + [x]), |pre|) == x
    ensures forall i :: 0 <= i < |pre| ==> Child(Arr(pre + [x]), i) == Child(Arr(pre), i)
  {
    var t, t' := Arr(pre), Arr(pre + [x]);
    hide Height;
    forall i | 0 <= i < |pre| + 1
      ensures TreeOk(t'.items[i]) && Height(Child(t', i)) <= max
    {
      if i < |pre| {
        assert Child(t', i) == Child(t, i);
      }
    }
  }

  // ----- what has a tree is decoded -----

  /** PartStarts, taken apart. */
  lemma PartEnds(cfg: Config, text: string, l: Lexed, t: Tree, i: nat, q: nat) returns (m: nat)
    requires i < Children(t) && Starts(cfg, text, l, PartsAndEnd(t, i), q)
    ensures m <= |text| && Starts(cfg, text, l, KeyTokens(t, i) + TokensOf(Child(t, i)), m)
    ensures i + 1 == Children(t) ==> Lex(cfg, text, m) == Lexed(if t.Arr? then ArrEnd else ObjEnd, q)
    ensures i + 1 < Children(t) ==> Lex(cfg, text, m).tok == Comma
    ensures i + 1 < Children(t) ==>
      Starts(cfg, text, Lex(cfg, text, Lex(cfg, text, m).next), PartsAndEnd(t, i + 1), q)
  {
    PartsNext(t, i);
    hide TokensOf, PartsAndEnd, Lex, KeyTokens, Starts, Lexes;
    var a := KeyTokens(t, i) + TokensOf(Child(t, i));
    if i + 1 == Children(t) {
      var end := if t.Arr? then ArrEnd else ObjEnd;
      StartsSplit(cfg, text, l, a, [end], q);
      m :| Starts(cfg, text, l, a, m) && Lexes(cfg, text, m, [end], q);
      StartsInside(cfg, text, l, a, m);
      assert [end] + [] == [end];
      LexesOne(cfg, text, m, end, [], q);
      LexesNone(cfg, text, Lex(cfg, text, m).next, q);
    } else {
      var more := PartsAndEnd(t, i + 1);
      StartsSplit(cfg, text, l, a, [Comma] + more, q);
      m :| Starts(cfg, text, l, a, m) && Lexes(cfg, text, m, [Comma] + more, q);
      StartsInside(cfg, text, l, a, m);
      LexesOne(cfg, text, m, Comma, more, q);
      StartsIs(cfg, text, Lex(cfg, text, m).next, more, q);
    }
  }

  lemma LexesNone(cfg: Config, text: string, p: nat, q: nat)
    requires Lexes(cfg, text, p, [], q)
    ensures p == q
  {
  }

  lemma StartsInside(cfg: Config, text: string, l: Lexed, toks: seq<Token>, q: nat)
    requires Starts(cfg, text, l, toks, q)
    ensures l.next <= |text| && q <= |text|
  {
    LexesEnd(cfg, text, l.next, toks[1..], q);
  }

  /** No tree starts with a closing bracket. */
  lemma FirstToken(t: Tree)
    requires TreeOk(t)
    ensures TokensOf(t)[0] == if t.Leaf? then t.tok else if t.Arr? then ArrBegin else ObjBegin
  {
    hide PartsFrom;
  }

  lemma {:induction false} ValueComplete(cfg: Config, text: string, l: Lexed, t: Tree, q: nat, depth: nat)
    requires TreeOk(t) && depth + Height(t) <= cfg.decodeMaxDepth && Starts(cfg, text, l, TokensOf(t), q)
    ensures l.next <= |text| && q <= |text|
    ensures DecodeValue(cfg, text, l, depth) == Decoded(ValueOf(t), q)
    decreases t, 1, 0
  {
    StartsInside(cfg, text, l, TokensOf(t), q);
    FirstToken(t);
    if t.Leaf? {
      assert TokensOf(t)[1..] == [];
    } else if Children(t) == 0 {
      EmptyRead(cfg, text, l, t, q, depth);
    } else if t.Arr? {
      ArrayComplete(cfg, text, l, t, q, depth);
    } else {
      ObjectComplete(cfg, text, l, t, q, depth);
    }
  }

  lemma EmptyRead(cfg: Config, text: string, l: Lexed, t: Tree, q: nat, depth: nat)
    requires !t.Leaf? && Children(t) == 0 && depth + Height(t) <= cfg.decodeMaxDepth
      && Starts(cfg, text, l, TokensOf(t), q)
    ensures DecodeValue(cfg, text, l, depth) == Decoded(Table([]), q)
  {
    var end := if t.Arr? then ArrEnd else ObjEnd;
    assert PartsFrom(t, 0) == [];
    assert TokensOf(t) == [if t.Arr? then ArrBegin else ObjBegin] + [] + [end];
    assert TokensOf(t)[1..] == [end] + [];
    assert Height(t) == 1;
    hide Lex, PartsFrom, TokensOf;
    LexesOne(cfg, text, l.next, end, [], q);
    LexesNone(cfg, text, Lex(cfg, text, l.next).next, q);
  }

  lemma PartsOf(t: Tree, max: int)
    requires TreeOk(t) && !t.Leaf? && Height(t) <= max + 1
    ensures Parts(t, max) && max >= 0
  {
    HighestBound(t, Children(t), max);
  }

  lemma FirstPart(cfg: Config, text: string, l: Lexed, t: Tree, q: nat) returns (first: Lexed)
    requires !t.Leaf? && Children(t) > 0 && TreeOk(t) && Starts(cfg, text, l, TokensOf(t), q)
    ensures l.next <= |text| && l == Lexed(if t.Arr? then ArrBegin else ObjBegin, l.next)
    ensures first == Lex(cfg, text, l.next) && first.tok != ArrEnd && first.tok != ObjEnd
    ensures Starts(cfg, text, first, PartsAndEnd(t, 0), q)
    ensures EntriesOf(t, 0) == [] && ValueOf(t) == Table(EntriesOf(t, Children(t)))
  {
    first := Lex(cfg, text, l.next);
    hide Lex, PartsFrom;
    TokensParts(t);
    FirstPartToken(t);
    var toks := PartsAndEnd(t, 0);
    hide PartsAndEnd, TokensOf;
    assert ([if t.Arr? then ArrBegin else ObjBegin] + toks)[1..] == toks;
    StartsIs(cfg, text, l.next, toks, q);
  }

  lemma FirstPartToken(t: Tree)
    requires !t.Leaf? && Children(t) > 0 && TreeOk(t)
    ensures PartsAndEnd(t, 0)[0] != ArrEnd && PartsAndEnd(t, 0)[0] != ObjEnd
  {
    PartsNext(t, 0);
    FirstToken(Child(t, 0));
    var a := KeyTokens(t, 0) + TokensOf(Child(t, 0));
    assert PartsAndEnd(t, 0)[0] == a[0];
    assert a[0] == if t.Obj? then StringToken(t.fields[0].key) else TokensOf(Child(t, 0))[0];
  }

  lemma {:induction false} ArrayComplete(cfg: Config, text: string, l: Lexed, t: Tree, q: nat, depth: nat)
    requires t.Arr? && Children(t) > 0 && TreeOk(t) && depth + Height(t) <= cfg.decodeMaxDepth
    requires Starts(cfg, text, l, TokensOf(t), q)
    ensures l.next <= |text| && DecodeValue(cfg, text, l, depth) == Decoded(ValueOf(t), q)
    decreases t, 0, Children(t) + 1
  {
    hide *;
    PartsOf(t, cfg.decodeMaxDepth - depth - 1);
    var first := FirstPart(cfg, text, l, t, q);
    ItemsComplete(cfg, text, first, t, 0, q, depth + 1);
    ArrayStarts(cfg, text, l.next, depth + 1, first, DecodeValue(cfg, text, l, depth));
  }

  lemma {:induction false} ObjectComplete(cfg: Config, text: string, l: Lexed, t: Tree, q: nat, depth: nat)
    requires t.Obj? && Children(t) > 0 && TreeOk(t) && depth + Height(t) <= cfg.decodeMaxDepth
    requires Starts(cfg, text, l, TokensOf(t), q)
    ensures l.next <= |text| && DecodeValue(cfg, text, l, depth) == Decoded(ValueOf(t), q)
    decreases t, 0, Children(t) + 1
  {
    hide *;
    PartsOf(t, cfg.decodeMaxDepth - depth - 1);
    var first := FirstPart(cfg, text, l, t, q);
    FieldsComplete(cfg, text, first, t, 0, q, depth + 1);
    ObjectStarts(cfg, text, l.next, depth + 1, first, DecodeValue(cfg, text, l, depth));
  }

  lemma PartFacts(t: Tree, i: nat, max: int)
    requires Parts(t, max) && i < Children(t)
    ensures !t.Leaf? && TreeOk(t) && TreeOk(Child(t, i)) && Height(Child(t, i)) <= max
    ensures EntriesOf(t, i + 1)
      == SetEntry(EntriesOf(t, i), if t.Arr? then Index(i + 1) else Name(t.fields[i].key), ValueOf(Child(t, i)))
    ensures t.Arr? ==> |EntriesOf(t, i)| == i
  {
    if t.Arr? {
      ItemEntries(t, i);
    }
    hide SetEntry;
  }

  lemma {:induction false} ItemsComplete(cfg: Config, text: string, l: Lexed, t: Tree, i: nat, q: nat, depth: nat)
    requires t.Arr? && TreeOk(t) && i < Children(t) && depth <= cfg.decodeMaxDepth
    requires Parts(t, cfg.decodeMaxDepth - depth) && Starts(cfg, text, l, PartsAndEnd(t, i), q)
    ensures l.next <= |text|
    ensures DecodeItems(cfg, text, l, EntriesOf(t, i), depth) == Decoded(Table(EntriesOf(t, Children(t))), q)
    decreases t, 0, Children(t) - i
  {
    hide *;
    StartsInside(cfg, text, l, PartsAndEnd(t, i), q);
    var m := PartEnds(cfg, text, l, t, i, q);
    PartFacts(t, i, cfg.decodeMaxDepth - depth);
    ItemTokens(t, i);
    ValueComplete(cfg, text, l, Child(t, i), m, depth);
    ItemsUnfold(cfg, text, l, EntriesOf(t, i), depth);
    ItemsAfterIs(cfg, text, m, EntriesOf(t, i + 1), depth);
    if i + 1 < Children(t) {
      ItemsComplete(cfg, text, Lex(cfg, text, Lex(cfg, text, m).next), t, i + 1, q, depth);
    }
  }

  lemma ItemsAfterIs(cfg: Config, text: string, p: nat, now: seq<Entry>, depth: nat)
    requires p <= |text|
    ensures Lex(cfg, text, p).tok == ArrEnd ==>
      ItemsAfter(cfg, text, p, now, depth) == Decoded(Table(now), Lex(cfg, text, p).next)
    ensures Lex(cfg, text, p).tok == Comma ==>
      ItemsAfter(cfg, text, p, now, depth) == DecodeItems(cfg, text, Lex(cfg, text, Lex(cfg, text, p).next), now, depth)
  {
    hide Lex, DecodeItems;
  }

  lemma {:induction false} FieldsComplete(cfg: Config, text: string, l: Lexed, t: Tree, i: nat, q: nat, depth: nat)
    requires t.Obj? && TreeOk(t) && i < Children(t) && depth <= cfg.decodeMaxDepth
    requires Parts(t, cfg.decodeMaxDepth - depth) && Starts(cfg, text, l, PartsAndEnd(t, i), q)
    ensures l.next <= |text|
    ensures DecodeFields(cfg, text, l, EntriesOf(t, i), depth) == Decoded(Table(EntriesOf(t, Children(t))), q)
    decreases t, 0, Children(t) - i
  {
    hide *;
    StartsInside(cfg, text, l, PartsAndEnd(t, i), q);
    var m := PartEnds(cfg, text, l, t, i, q);
    PartFacts(t, i, cfg.decodeMaxDepth - depth);
    KeyEnds(cfg, text, l, t, i, m);
    var at := Lex(cfg, text, Lex(cfg, text, l.next).next);
    ValueComplete(cfg, text, at, Child(t, i), m, depth);
    FieldRound(cfg, text, l, EntriesOf(t, i), depth, m, ValueOf(Child(t, i)), EntriesOf(t, i + 1));
    if i + 1 < Children(t) {
      FieldsComplete(cfg, text, Lex(cfg, text, Lex(cfg, text, m).next), t, i + 1, q, depth);
    }
  }

  lemma KeyEnds(cfg: Config, text: string, l: Lexed, t: Tree, i: nat, m: nat)
    requires t.Obj? && i < Children(t) && Starts(cfg, text, l, KeyTokens(t, i) + TokensOf(Child(t, i)), m)
    ensures l.tok == StringToken(t.fields[i].key) && l.next <= |text| && Lex(cfg, text, l.next).tok == Colon
    ensures Starts(cfg, text, Lex(cfg, text, Lex(cfg, text, l.next).next), TokensOf(Child(t, i)), m)
  {
    var a := TokensOf(Child(t, i));
    hide TokensOf, Lex;
    var toks := KeyTokens(t, i) + a;
    assert toks[1..] == [Colon] + a;
    LexesOne(cfg, text, l.next, Colon, a, m);
    StartsIs(cfg, text, Lex(cfg, text, l.next).next, a, m);
  }

  /** A round of the loop over the fields. */
  lemma FieldRound(cfg: Config, text: string, l: Lexed, entries: seq<Entry>, depth: nat, m: nat, v: Value,
      now: seq<Entry>)
    requires l.tok.StringToken? && l.next <= |text| && Lex(cfg, text, l.next).tok == Colon && m <= |text|
    requires DecodeValue(cfg, text, Lex(cfg, text, Lex(cfg, text, l.next).next), depth) == Decoded(v, m)
    requires now == SetEntry(entries, Name(l.tok.s), v)
    ensures Lex(cfg, text, m).tok == ObjEnd ==>
      DecodeFields(cfg, text, l, entries, depth) == Decoded(Table(now), Lex(cfg, text, m).next)
    ensures Lex(cfg, text, m).tok == Comma ==>
      DecodeFields(cfg, text, l, entries, depth) == DecodeFields(cfg, text, Lex(cfg, text, Lex(cfg, text, m).next), now, depth)
  {
    hide Lex, DecodeValue, SetEntry;
    FieldsUnfold(cfg, text, l, entries, depth);
    hide DecodeFields;
  }

  // ----- whole texts -----

  /** The text is this tree and nothing else, up to the end or a zero, and no
      deeper than allowed; UTF-16 and UTF-32 are recognized by an early zero. */
  ghost predicate Writes(cfg: Config, text: string, t: Tree, q: nat) {
    && !(|text| >= 2 && (text[0] == '\0' || text[1] == '\0'))
    && TreeOk(t) && Height(t) <= cfg.decodeMaxDepth
    && Lexes(cfg, text, 0, TokensOf(t), q) && q <= |text| && Lex(cfg, text, q).tok == End
  }

  /** The decoder returns a value exactly for the texts of the trees with that
      value. */
  lemma DecodeIff(cfg: Config, text: string, v: Value, q: nat)
    ensures Decode(cfg, text) == Decoded(v, q) <==> exists t :: Writes(cfg, text, t, q) && ValueOf(t) == v
  {
    var l := Lex(cfg, text, 0);
    if Decode(cfg, text) == Decoded(v, q) {
      var t := ValueSound(cfg, text, l, 0);
      StartsIs(cfg, text, 0, TokensOf(t), q);
      assert Writes(cfg, text, t, q);
    }
    if t :| Writes(cfg, text, t, q) && ValueOf(t) == v {
      StartsIs(cfg, text, 0, TokensOf(t), q);
      ValueComplete(cfg, text, l, t, q, 0);
    }
  }
}
