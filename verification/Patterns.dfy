/** What a pattern means: all its matches, in the order in which backtracking
    finds them. A character stands for a byte, in the C locale. */
module Patterns {
  import opened Texts

  const L_ESC := '%'
  const MAXCAPTURES := 32
  const CAP_UNFINISHED := -1
  const CAP_POSITION := -2

  // ----- character classes -----

  predicate IsLower(c: char) { 'a' <= c <= 'z' }
  predicate IsUpper(c: char) { 'A' <= c <= 'Z' }
  predicate IsDigit(c: char) { '0' <= c <= '9' }
  predicate IsAlpha(c: char) { IsLower(c) || IsUpper(c) }
  predicate IsAlnum(c: char) { IsAlpha(c) || IsDigit(c) }
  predicate IsXdigit(c: char) { IsDigit(c) || 'a' <= c <= 'f' || 'A' <= c <= 'F' }
  predicate IsSpace(c: char) { c == ' ' || 9 <= c as int <= 13 }
  predicate IsCntrl(c: char) { c as int < 32 || c as int == 127 }
  predicate IsPunct(c: char) { 33 <= c as int <= 126 && !IsAlnum(c) }

  function ToLower(c: char): char {
    if IsUpper(c) then (c as int + 32) as char else c
  }

  /** match_class. */
  predicate MatchClass(c: char, cl: char) {
    var l := ToLower(cl);
    if l !in "acdlpsuwxz" then cl == c
    else
      var res :=
        if l == 'a' then IsAlpha(c)
        else if l == 'c' then IsCntrl(c)
        else if l == 'd' then IsDigit(c)
        else if l == 'l' then IsLower(c)
        else if l == 'p' then IsPunct(c)
        else if l == 's' then IsSpace(c)
        else if l == 'u' then IsUpper(c)
        else if l == 'w' then IsAlnum(c)
        else if l == 'x' then IsXdigit(c)
        else c == '\0';
      if IsLower(cl) then res else !res
  }

  datatype Member = One(c: char) | Range(lo: char, hi: char) | Letter(cl: char) {
    predicate Has(x: char) {
      match this
      case One(c) => x == c
      case Range(lo, hi) => lo <= x <= hi
      case Letter(cl) => MatchClass(x, cl)
    }
  }

  predicate HasMember(members: seq<Member>, x: char) {
    exists i :: 0 <= i < |members| && members[i].Has(x)
  }

  lemma MemberFirst(members: seq<Member>, x: char)
    requires members != []
    ensures HasMember(members, x) <==> members[0].Has(x) || HasMember(members[1..], x)
  {
    if HasMember(members, x) && !members[0].Has(x) {
      var i :| 0 <= i < |members| && members[i].Has(x);
      assert members[1..][i - 1].Has(x);
    }
    if HasMember(members[1..], x) {
      var i :| 0 <= i < |members[1..]| && members[1..][i].Has(x);
      assert members[i + 1].Has(x);
    }
  }

  datatype CharSet = Any | Members(negated: bool, members: seq<Member>) {
    predicate Has(x: char) {
      match this
      case Any => true
      case Members(negated, members) => negated != HasMember(members, x)
    }
  }

  // ----- patterns -----

  datatype Repeat = Once | Optional | Longest | LongestOne | Shortest

  datatype Item =
    | Open(position: bool)
    | Close
    | Balanced(b: char, e: char)
    | Frontier(of: CharSet)
    | Back(index: int)
    | AtEnd
    | Chars(of: CharSet, repeat: Repeat)
    | Malformed(message: string)

  datatype EndOf = End(p: nat) | Bad(message: string)

  const NO_BRACKET := "malformed pattern (missing ']')"

  /** The end of a set whose next member is at `p`; a first `]` is a member. */
  function BracketEnd(pat: string, p: nat): (r: EndOf)
    requires p <= |pat|
    ensures r.End? ==> p + 1 < r.p <= |pat|
    decreases |pat| - p
  {
    if At(pat, p) == '\0' then Bad(NO_BRACKET)
    else
      var p1 := if At(pat, p) == L_ESC && At(pat, p + 1) != '\0' then p + 2 else p + 1;
      if At(pat, p1) == ']' then End(p1 + 1) else BracketEnd(pat, p1)
  }

  function ClassEnd(pat: string, p: nat): (r: EndOf)
    requires p < |pat|
    ensures r.End? ==> p < r.p <= |pat|
    ensures r.End? && pat[p] == '[' ==> p + 2 < r.p
  {
    if pat[p] == L_ESC then
      if At(pat, p + 1) == '\0' then Bad("malformed pattern (ends with '%')") else End(p + 2)
    else if pat[p] == '[' then
      BracketEnd(pat, if At(pat, p + 1) == '^' then p + 2 else p + 1)
    else End(p + 1)
  }

  function MembersAt(pat: string, p: nat, ec: nat): seq<Member>
    decreases ec - p
  {
    if p >= ec then []
    else if At(pat, p) == L_ESC then [Letter(At(pat, p + 1))] + MembersAt(pat, p + 2, ec)
    else if At(pat, p + 1) == '-' && p + 2 < ec then [Range(At(pat, p), At(pat, p + 2))] + MembersAt(pat, p + 3, ec)
    else [One(At(pat, p))] + MembersAt(pat, p + 1, ec)
  }

  function BracketAt(pat: string, p: nat, ec: nat): CharSet {
    var negated := At(pat, p + 1) == '^';
    Members(negated, MembersAt(pat, if negated then p + 2 else p + 1, ec))
  }

  function SetAt(pat: string, p: nat, ep: nat): CharSet
    requires ep > 0
  {
    var c := At(pat, p);
    if c == '.' then Any
    else if c == L_ESC then Members(false, [Letter(At(pat, p + 1))])
    else if c == '[' then BracketAt(pat, p, ep - 1)
    else Members(false, [One(c)])
  }

  function RepeatAt(pat: string, ep: nat): Repeat {
    var c := At(pat, ep);
    if c == '?' then Optional
    else if c == '*' then Longest
    else if c == '+' then LongestOne
    else if c == '-' then Shortest
    else Once
  }

  function ParseChars(pat: string, p: nat): seq<Item>
    requires p < |pat|
    decreases |pat| - p, 0
  {
    match ClassEnd(pat, p)
    case Bad(message) => [Malformed(message)]
    case End(ep) =>
      var repeat := RepeatAt(pat, ep);
      [Chars(SetAt(pat, p, ep), repeat)] + Parse(pat, if repeat == Once then ep else ep + 1)
  }

  function ParseEscape(pat: string, p: nat): seq<Item>
    requires p < |pat|
    decreases |pat| - p, 1
  {
    var c := At(pat, p + 1);
    if c == 'b' then
      if At(pat, p + 2) == '\0' || At(pat, p + 3) == '\0' then [Malformed("unbalanced pattern")]
      else [Balanced(At(pat, p + 2), At(pat, p + 3))] + Parse(pat, p + 4)
    else if c == 'f' then
      if At(pat, p + 2) != '[' then [Malformed("missing '[' after '%f' in pattern")]
      else (
        match ClassEnd(pat, p + 2)
        case Bad(message) => [Malformed(message)]
        case End(ep) => [Frontier(BracketAt(pat, p + 2, ep - 1))] + Parse(pat, ep)
      )
    else if IsDigit(c) then [Back(c as int - '1' as int)] + Parse(pat, p + 2)
    else ParseChars(pat, p)
  }

  /** The items of a pattern. What is malformed counts only when it is reached. */
  function Parse(pat: string, p: nat): seq<Item>
    requires p <= |pat|
    decreases |pat| - p, 2
  {
    var c := At(pat, p);
    if c == '\0' then []
    else if c == '(' then
      if At(pat, p + 1) == ')' then [Open(true)] + Parse(pat, p + 2) else [Open(false)] + Parse(pat, p + 1)
    else if c == ')' then [Close] + Parse(pat, p + 1)
    else if c == L_ESC then ParseEscape(pat, p)
    else if c == '$' && At(pat, p + 1) == '\0' then [AtEnd]
    else ParseChars(pat, p)
  }

  // ----- the matches -----

  datatype Capture = Capture(init: nat, len: int)

  datatype Outcome = Success(end: nat, caps: seq<Capture>) | Failure(message: string)

  /** All captures lie before `s`. */
  predicate CapsOk(caps: seq<Capture>, s: nat) {
    true <==> (|caps| <= MAXCAPTURES && forall i :: 0 <= i < |caps| ==> CapOk(caps[i], s))
  }

  predicate CapOk(c: Capture, s: nat) {
    c.init <= s && c.len >= CAP_POSITION && (c.len >= 0 ==> c.init + c.len <= s)
  }

  /** The innermost capture that is still open, or -1. */
  function LastOpen(caps: seq<Capture>, n: nat): (l: int)
    requires n <= |caps|
    ensures -1 <= l < n && (l >= 0 ==> caps[l].len == CAP_UNFINISHED)
    ensures forall k :: l < k < n ==> caps[k].len != CAP_UNFINISHED
  {
    if n == 0 then -1 else if caps[n - 1].len == CAP_UNFINISHED then n - 1 else LastOpen(caps, n - 1)
  }

  /** The end of the balanced text, of which `cont` opening characters wait. */
  function BalanceEnd(src: string, s: nat, cont: nat, b: char, e: char): (r: int)
    requires cont > 0
    ensures r == -1 || s < r <= |src|
    decreases |src| - s
  {
    if s >= |src| then -1
    else if src[s] == e then if cont == 1 then s + 1 else BalanceEnd(src, s + 1, cont - 1, b, e)
    else BalanceEnd(src, s + 1, if src[s] == b then cont + 1 else cont, b, e)
  }

  predicate AtFrontier(src: string, s: nat, of: CharSet)
    requires s <= |src|
  {
    !of.Has(if s == 0 then '\0' else src[s - 1]) && of.Has(At(src, s))
  }

  predicate Repeats(src: string, s: nat, c: Capture)
    requires CapOk(c, s) && s <= |src| && c.len >= 0
  {
    s + c.len <= |src| && src[s..s + c.len] == src[c.init..c.init + c.len]
  }

  predicate TakesAt(src: string, s: nat, of: CharSet) {
    s < |src| && of.Has(src[s])
  }

  /** The matches of the rest after as many characters as possible, then one
      fewer, and so on. */
  function Greedy(src: string, of: CharSet, rest: seq<Item>, s: nat, caps: seq<Capture>): seq<Outcome>
    requires s <= |src| && CapsOk(caps, s)
    decreases |rest|, 1, |src| - s
  {
    (if TakesAt(src, s, of) then Greedy(src, of, rest, s + 1, caps) else []) + Matches(src, rest, s, caps)
  }

  /** The matches of the rest after no character, then one more, and so on. */
  function Lazy(src: string, of: CharSet, rest: seq<Item>, s: nat, caps: seq<Capture>): seq<Outcome>
    requires s <= |src| && CapsOk(caps, s)
    decreases |rest|, 1, |src| - s
  {
    Matches(src, rest, s, caps) + if TakesAt(src, s, of) then Lazy(src, of, rest, s + 1, caps) else []
  }

  /** All the ways to match `items` from `s`, the first choice first. An error
      ends the search where it is met. */
  function Matches(src: string, items: seq<Item>, s: nat, caps: seq<Capture>): seq<Outcome>
    requires s <= |src| && CapsOk(caps, s)
    decreases |items|, 0, 0
  {
    if items == [] then [Success(s, caps)]
    else
      var rest := items[1..];
      match items[0]
      case Open(position) =>
        if |caps| == MAXCAPTURES then [Failure("too many captures")]
        else Matches(src, rest, s, caps + [Capture(s, if position then CAP_POSITION else CAP_UNFINISHED)])
      case Close =>
        var l := LastOpen(caps, |caps|);
        if l == -1 then [Failure("invalid pattern capture")]
        else Matches(src, rest, s, caps[l := Capture(caps[l].init, s - caps[l].init)])
      case Balanced(b, e) =>
        if At(src, s) != b then []
        else
          var r := BalanceEnd(src, s + 1, 1, b, e);
          if r == -1 then [] else Matches(src, rest, r, Later(caps, s, r))
      case Frontier(of) => if AtFrontier(src, s, of) then Matches(src, rest, s, caps) else []
      case Back(i) =>
        if !(0 <= i < |caps|) || caps[i].len == CAP_UNFINISHED then [Failure("invalid capture index")]
        else if caps[i].len != CAP_POSITION && Repeats(src, s, caps[i]) then
          Matches(src, rest, s + caps[i].len, Later(caps, s, s + caps[i].len))
        else []
      case AtEnd => if s == |src| then Matches(src, rest, s, caps) else []
      case Malformed(message) => [Failure(message)]
      case Chars(of, repeat) =>
        match repeat
        case Once => if TakesAt(src, s, of) then Matches(src, rest, s + 1, caps) else []
        case Optional => (if TakesAt(src, s, of) then Matches(src, rest, s + 1, caps) else []) + Matches(src, rest, s, caps)
        case Longest => Greedy(src, of, rest, s, caps)
        case LongestOne => if TakesAt(src, s, of) then Greedy(src, of, rest, s + 1, caps) else []
        case Shortest => Lazy(src, of, rest, s, caps)
  }

  /** The same captures, later in the subject. */
  function Later(caps: seq<Capture>, s: nat, r: nat): (later: seq<Capture>)
    requires CapsOk(caps, s) && s <= r
    ensures later == caps && CapsOk(later, r)
  {
    caps
  }

  // ----- laws of the search -----

  function Closed(caps: seq<Capture>, s: nat): (closed: seq<Capture>)
    requires CapsOk(caps, s)
    ensures CapsOk(closed, s)
  {
    var l := LastOpen(caps, |caps|);
    if l == -1 then caps else caps[l := Capture(caps[l].init, s - caps[l].init)]
  }

  lemma GreedyEnd(src: string, of: CharSet, rest: seq<Item>, s: nat, caps: seq<Capture>)
    requires s <= |src| && CapsOk(caps, s) && !TakesAt(src, s, of)
    ensures Greedy(src, of, rest, s, caps) == Matches(src, rest, s, caps)
  {
  }

  /** When longer matches fail. */
  lemma GreedyLess(src: string, of: CharSet, rest: seq<Item>, s: nat, caps: seq<Capture>)
    requires s <= |src| && CapsOk(caps, s) && TakesAt(src, s, of) && Greedy(src, of, rest, s + 1, caps) == []
    ensures Greedy(src, of, rest, s, caps) == Matches(src, rest, s, caps)
  {
  }

  lemma CapsLater(caps: seq<Capture>, s: nat)
    requires CapsOk(caps, s)
    ensures forall r: nat :: r >= s ==> CapsOk(caps, r)
  {
  }

  lemma GreedyMore(src: string, of: CharSet, rest: seq<Item>, s: nat, caps: seq<Capture>)
    requires s <= |src| && CapsOk(caps, s) && TakesAt(src, s, of) && CapsOk(caps, s + 1)
    ensures s < |src|
    ensures Greedy(src, of, rest, s, caps) == Greedy(src, of, rest, s + 1, caps) + Matches(src, rest, s, caps)
  {
  }

  /** The matches after `i` repetitions come first when there are no longer ones. */
  lemma {:induction false} GreedyFirst(src: string, of: CharSet, rest: seq<Item>, s: nat, i: nat, caps: seq<Capture>)
    returns (more: seq<Outcome>)
    requires s + i <= |src| && CapsOk(caps, s) && (forall k :: s <= k < s + i ==> TakesAt(src, k, of))
    ensures CapsOk(caps, s + i)
    ensures Greedy(src, of, rest, s, caps) == Greedy(src, of, rest, s + i, caps) + more
    decreases i
  {
    hide Greedy, Matches, TakesAt, CapsOk;
    more := [];
    CapsLater(caps, s);
    if i > 0 {
      assert TakesAt(src, s, of);
      GreedyMore(src, of, rest, s, caps);
      var others := GreedyFirst(src, of, rest, s + 1, i - 1, caps);
      more := others + Matches(src, rest, s, caps);
    }
  }

  lemma LazyNext(src: string, of: CharSet, rest: seq<Item>, s: nat, caps: seq<Capture>) returns (more: seq<Outcome>)
    requires s <= |src| && CapsOk(caps, s)
    ensures Lazy(src, of, rest, s, caps) == Matches(src, rest, s, caps) + more
    ensures more == if TakesAt(src, s, of) then Lazy(src, of, rest, s + 1, caps) else []
  {
    more := if TakesAt(src, s, of) then Lazy(src, of, rest, s + 1, caps) else [];
  }

  /** With `cont` opening characters before `s`, `r` is the first position at
      which as many have been closed. */
  ghost predicate BalancedTo(src: string, s: nat, r: nat, cont: nat, b: char, e: char)
    requires s < r <= |src|
  {
    && cont + Count(src[s..r], b) == Count(src[s..r], e)
    && forall k :: s <= k < r ==> cont + Count(src[s..k], b) > Count(src[s..k], e)
  }

  function Count(s: string, c: char): nat {
    if s == [] then 0 else (if s[0] == c then 1 else 0) + Count(s[1..], c)
  }

  lemma CountFirst(src: string, s: nat, k: nat, c: char)
    requires s < k <= |src|
    ensures Count(src[s..k], c) == (if src[s] == c then 1 else 0) + Count(src[s + 1..k], c)
  {
    assert src[s..k][1..] == src[s + 1..k];
  }

  /** Balanced text ends where the counts of both characters agree first. */
  lemma {:induction false} BalanceTo(src: string, s: nat, r: nat, cont: nat, b: char, e: char)
    requires cont > 0 && b != e && s < r <= |src|
    ensures BalanceEnd(src, s, cont, b, e) == r <==> BalancedTo(src, s, r, cont, b, e)
    decreases r - s
  {
    var next := if src[s] == e then cont - 1 else if src[s] == b then cont + 1 else cont;
    CountFirst(src, s, r, b);
    CountFirst(src, s, r, e);
    assert src[s..s] == [] && src[s + 1..s + 1] == [];
    if r > s + 1 {
      if next > 0 {
        BalanceTo(src, s + 1, r, next, b, e);
        if BalancedTo(src, s + 1, r, next, b, e) {
          BalanceWider(src, s, r, cont, next, b, e);
        }
        if BalancedTo(src, s, r, cont, b, e) {
          BalanceNarrower(src, s, r, cont, next, b, e);
        }
      } else {
        CountFirst(src, s, s + 1, b);
        CountFirst(src, s, s + 1, e);
        assert !(cont + Count(src[s..s + 1], b) > Count(src[s..s + 1], e));
      }
    }
  }

  lemma BalanceWider(src: string, s: nat, r: nat, cont: nat, next: nat, b: char, e: char)
    requires cont > 0 && b != e && s + 1 < r <= |src| && BalancedTo(src, s + 1, r, next, b, e)
    requires next == if src[s] == e then cont - 1 else if src[s] == b then cont + 1 else cont
    ensures BalancedTo(src, s, r, cont, b, e)
  {
    CountFirst(src, s, r, b);
    CountFirst(src, s, r, e);
    forall k | s <= k < r
      ensures cont + Count(src[s..k], b) > Count(src[s..k], e)
    {
      if k > s {
        CountFirst(src, s, k, b);
        CountFirst(src, s, k, e);
        assert next + Count(src[s + 1..k], b) > Count(src[s + 1..k], e);
      }
    }
  }

  lemma BalanceNarrower(src: string, s: nat, r: nat, cont: nat, next: nat, b: char, e: char)
    requires cont > 0 && b != e && s + 1 < r <= |src| && BalancedTo(src, s, r, cont, b, e)
    requires next == if src[s] == e then cont - 1 else if src[s] == b then cont + 1 else cont
    ensures BalancedTo(src, s + 1, r, next, b, e)
  {
    CountFirst(src, s, r, b);
    CountFirst(src, s, r, e);
    var s1 := s + 1;
    forall k | s1 <= k < r
      ensures next + Count(src[s1..k], b) > Count(src[s1..k], e)
    {
      CountFirst(src, s, k, b);
      CountFirst(src, s, k, e);
      assert cont + Count(src[s..k], b) > Count(src[s..k], e);
    }
  }

  // ----- what a match covers -----

  predicate Inside(o: Outcome, src: string, s: nat) {
    o.Success? ==> s <= o.end <= |src| && CapsOk(o.caps, o.end)
  }

  ghost predicate AllInside(outs: seq<Outcome>, src: string, s: nat) {
    forall i :: 0 <= i < |outs| ==> Inside(outs[i], src, s)
  }

  /** Matches and captures lie between the start and the end of the subject. */
  lemma {:induction false} OutcomesInside(src: string, items: seq<Item>, s: nat, caps: seq<Capture>)
    requires s <= |src| && CapsOk(caps, s)
    ensures AllInside(Matches(src, items, s, caps), src, s)
    decreases |items|, 0, 0
  {
    if items != [] {
      var rest := items[1..];
      match items[0] {
        case Open(position) =>
          if |caps| < MAXCAPTURES {
            OutcomesInside(src, rest, s, caps + [Capture(s, if position then CAP_POSITION else CAP_UNFINISHED)]);
          }
        case Close =>
          if LastOpen(caps, |caps|) != -1 {
            OutcomesInside(src, rest, s, Closed(caps, s));
          }
        case Balanced(b, e) =>
          if At(src, s) == b {
            var r := BalanceEnd(src, s + 1, 1, b, e);
            if r != -1 {
              OutcomesInside(src, rest, r, Later(caps, s, r));
            }
          }
        case Frontier(of) => OutcomesInside(src, rest, s, caps);
        case Back(i) =>
          if 0 <= i < |caps| && caps[i].len >= 0 && Repeats(src, s, caps[i]) {
            OutcomesInside(src, rest, s + caps[i].len, Later(caps, s, s + caps[i].len));
          }
        case AtEnd => OutcomesInside(src, rest, s, caps);
        case Malformed(message) =>
        case Chars(of, repeat) =>
          OutcomesInside(src, rest, s, caps);
          if TakesAt(src, s, of) && (repeat == Once || repeat == Optional) {
            OutcomesInside(src, rest, s + 1, caps);
          } else if repeat == Longest {
            GreedyInside(src, of, rest, s, caps);
          } else if repeat == LongestOne && TakesAt(src, s, of) {
            GreedyInside(src, of, rest, s + 1, caps);
          } else if repeat == Shortest {
            LazyInside(src, of, rest, s, caps);
          }
      }
    }
  }

  lemma {:induction false} GreedyInside(src: string, of: CharSet, rest: seq<Item>, s: nat, caps: seq<Capture>)
    requires s <= |src| && CapsOk(caps, s)
    ensures AllInside(Greedy(src, of, rest, s, caps), src, s)
    decreases |rest|, 1, |src| - s
  {
    OutcomesInside(src, rest, s, caps);
    if TakesAt(src, s, of) {
      GreedyInside(src, of, rest, s + 1, caps);
    }
  }

  lemma {:induction false} LazyInside(src: string, of: CharSet, rest: seq<Item>, s: nat, caps: seq<Capture>)
    requires s <= |src| && CapsOk(caps, s)
    ensures AllInside(Lazy(src, of, rest, s, caps), src, s)
    decreases |rest|, 1, |src| - s
  {
    OutcomesInside(src, rest, s, caps);
    if TakesAt(src, s, of) {
      LazyInside(src, of, rest, s + 1, caps);
    }
  }

  // ----- substitution -----

  datatype Replacement = Done(text: string, n: nat) | Fails(message: string) {
    function After(text: string, n: nat): Replacement {
      if Fails? then this else Done(text + this.text, n + this.n)
    }
  }

  /** The subject from `s` on with at most `left` matches replaced. After an empty
      match one character is kept. */
  function Replaced(src: string, items: seq<Item>, s: nat, left: nat, anchor: bool,
      repl: (string, seq<Capture>) -> string): Replacement
    requires s <= |src|
    decreases |src| - s, 0
  {
    if left == 0 then Done(src[s..], 0)
    else
      var outs := Matches(src, items, s, []);
      if outs != [] && outs[0].Failure? then Fails(outs[0].message)
      else
        OutcomesInside(src, items, s, []);
        var n := if outs == [] then 0 else 1;
        var text := if outs == [] then "" else repl(src[s..outs[0].end], outs[0].caps);
        if outs != [] && outs[0].end > s then
          ReplacedRest(src, items, outs[0].end, left - n, anchor, repl).After(text, n)
        else if s < |src| then
          ReplacedRest(src, items, s + 1, left - n, anchor, repl).After(text + [src[s]], n)
        else Done(text, n)
  }

  function ReplacedRest(src: string, items: seq<Item>, s: nat, left: nat, anchor: bool,
      repl: (string, seq<Capture>) -> string): Replacement
    requires s <= |src|
    decreases |src| - s, 1
  {
    if anchor then Done(src[s..], 0) else Replaced(src, items, s, left, anchor, repl)
  }

  lemma AfterAfter(r: Replacement, text: string, n: nat, text1: string, n1: nat)
    ensures r.After(text, n).After(text1, n1) == r.After(text1 + text, n + n1)
  {
    if r.Done? {
      assert text1 + (text + r.text) == (text1 + text) + r.text;
    }
  }

  lemma ReplacedFails(src: string, items: seq<Item>, s: nat, left: nat, anchor: bool,
      repl: (string, seq<Capture>) -> string, b: string, n: nat)
    requires s <= |src| && left > 0 && Matches(src, items, s, []) != [] && Matches(src, items, s, [])[0].Failure?
    ensures Replaced(src, items, s, left, anchor, repl).After(b, n) == Fails(Matches(src, items, s, [])[0].message)
  {
  }

  /** One match is replaced, or none is there, and one step is made. */
  lemma ReplacedStep(src: string, items: seq<Item>, s: nat, left: nat, anchor: bool,
      repl: (string, seq<Capture>) -> string,
                     outs: seq<Outcome>, n: nat, add: string, b0: string, n0: nat)
    requires s <= |src| && left > 0 && outs == Matches(src, items, s, []) && (outs != [] ==> outs[0].Success?)
    requires AllInside(outs, src, s)
    requires n == (if outs == [] then 0 else 1) && add == if outs == [] then "" else repl(src[s..outs[0].end], outs[0].caps)
    ensures outs != [] ==> s <= outs[0].end <= |src|
    ensures outs != [] && outs[0].end > s ==>
      Replaced(src, items, s, left, anchor, repl).After(b0, n0)
        == ReplacedRest(src, items, outs[0].end, left - n, anchor, repl).After(b0 + add, n0 + n)
    ensures !(outs != [] && outs[0].end > s) && s < |src| ==>
      Replaced(src, items, s, left, anchor, repl).After(b0, n0)
        == ReplacedRest(src, items, s + 1, left - n, anchor, repl).After(b0 + (add + [src[s]]), n0 + n)
    ensures !(outs != [] && outs[0].end > s) && s == |src| ==>
      Replaced(src, items, s, left, anchor, repl).After(b0, n0) == Done(b0 + add, n0 + n)
  {
    assert outs != [] ==> Inside(outs[0], src, s);
    if outs != [] && outs[0].end > s {
      AfterAfter(ReplacedRest(src, items, outs[0].end, left - n, anchor, repl), add, n, b0, n0);
    } else if s < |src| {
      AfterAfter(ReplacedRest(src, items, s + 1, left - n, anchor, repl), add + [src[s]], n, b0, n0);
    }
  }

  lemma NothingBefore(r: Replacement)
    ensures r.After("", 0) == r
  {
    if r.Done? {
      assert "" + r.text == r.text;
    }
  }

  lemma RestIs(src: string, items: seq<Item>, s: nat, left: nat, anchor: bool, repl: (string, seq<Capture>) -> string,
      b: string, n: nat)
    requires s <= |src|
    ensures !anchor ==> ReplacedRest(src, items, s, left, anchor, repl) == Replaced(src, items, s, left, anchor, repl)
    ensures left == 0 ==> Replaced(src, items, s, left, anchor, repl).After(b, n) == Done(b + src[s..], n)
    ensures anchor || left == 0 ==> ReplacedRest(src, items, s, left, anchor, repl).After(b, n) == Done(b + src[s..], n)
  {
  }

  /** Replacing every match by itself changes nothing, and no more than `left`
      replacements are made. */
  lemma {:induction false} ReplaceBySame(src: string, items: seq<Item>, s: nat, left: nat, anchor: bool,
      repl: (string, seq<Capture>) -> string)
    requires s <= |src| && forall text, caps :: repl(text, caps) == text
    ensures var r := Replaced(src, items, s, left, anchor, repl);
      r.Done? ==> r.text == src[s..] && r.n <= left
    decreases |src| - s
  {
    var outs := Matches(src, items, s, []);
    if left > 0 && !(outs != [] && outs[0].Failure?) {
      OutcomesInside(src, items, s, []);
      var n := if outs == [] then 0 else 1;
      if outs != [] && outs[0].end > s {
        ReplaceBySame(src, items, outs[0].end, left - n, anchor, repl);
        assert src[s..] == src[s..outs[0].end] + src[outs[0].end..];
      } else if s < |src| {
        ReplaceBySame(src, items, s + 1, left - n, anchor, repl);
        assert src[s..] == [src[s]] + src[s + 1..] && src[s..s] == "";
      }
    }
  }

  // ----- plain searches -----

  const SPECIALS := "^$*+?.([%-"

  /** No special character before the zero that ends the C string. */
  ghost predicate NoSpecials(pat: string) {
    forall i :: 0 <= i < |pat| && pat[i] in SPECIALS ==> exists k :: 0 <= k < i && pat[k] == '\0'
  }

  /** The only way to match a literal. */
  function LiteralMatches(pat: string, src: string, s: nat): seq<Outcome>
    requires s <= |src|
  {
    if HasAt(src, s, pat) then [Success(s + |pat|, [])] else []
  }

  ghost predicate PlainAgrees(pat: string) {
    forall src: string, s: nat :: s <= |src| ==> Matches(src, Parse(pat, 0), s, []) == LiteralMatches(pat, src, s)
  }

  predicate Literal(c: char) {
    c != '\0' && c != ')' && c !in SPECIALS
  }

  /** A plain search, which stands in for the matcher when there are no special
      characters, does the same exactly when the pattern has neither a closing
      parenthesis nor a zero. */
  lemma PlainSearch(pat: string)
    requires NoSpecials(pat)
    ensures PlainAgrees(pat) <==> forall i :: 0 <= i < |pat| ==> pat[i] != ')' && pat[i] != '\0'
  {
    if forall i :: 0 <= i < |pat| ==> pat[i] != ')' && pat[i] != '\0' {
      forall src: string, s: nat | s <= |src|
        ensures Matches(src, Parse(pat, 0), s, []) == LiteralMatches(pat, src, s)
      {
        LiteralRest(pat, 0, src, s);
        assert pat[0..] == pat;
      }
    } else {
      var k := FirstOther(pat, 0);
      StopsAt(pat, 0, k);
      assert pat[0..|pat|] == pat;
      assert LiteralMatches(pat, pat, 0) == [Success(|pat|, [])];
    }
  }

  lemma FirstOther(pat: string, i: nat) returns (k: nat)
    requires NoSpecials(pat) && i <= |pat| && (forall j :: 0 <= j < i ==> Literal(pat[j]))
    requires exists j :: 0 <= j < |pat| && (pat[j] == ')' || pat[j] == '\0')
    ensures k < |pat| && (pat[k] == ')' || pat[k] == '\0') && forall j :: 0 <= j < k ==> Literal(pat[j])
    decreases |pat| - i
  {
    if pat[i] == ')' || pat[i] == '\0' {
      k := i;
    } else {
      k := FirstOther(pat, i + 1);
    }
  }

  lemma LiteralItem(pat: string, p: nat)
    requires p < |pat| && Literal(pat[p]) && (p + 1 < |pat| ==> pat[p + 1] !in SPECIALS)
    ensures Parse(pat, p) == [Chars(Members(false, [One(pat[p])]), Once)] + Parse(pat, p + 1)
  {
    assert ClassEnd(pat, p) == End(p + 1);
  }

  lemma OneHas(c: char, x: char)
    ensures Members(false, [One(c)]).Has(x) <==> x == c
  {
    assert [One(c)][0].Has(x) <==> x == c;
  }

  lemma {:induction false} LiteralRest(pat: string, p: nat, src: string, s: nat)
    requires p <= |pat| && (forall i :: 0 <= i < |pat| ==> Literal(pat[i])) && s <= |src|
    ensures Matches(src, Parse(pat, p), s, []) == LiteralMatches(pat[p..], src, s)
    decreases |pat| - p
  {
    if p < |pat| {
      LiteralItem(pat, p);
      var rest := pat[p + 1..];
      assert Parse(pat, p)[1..] == Parse(pat, p + 1) && pat[p..] == [pat[p]] + rest;
      if s < |src| {
        OneHas(pat[p], src[s]);
        LiteralRest(pat, p + 1, src, s + 1);
        LiteralCons(pat[p], rest, src, s);
      }
    } else {
      assert src[s..s] == pat[p..];
    }
  }

  lemma LiteralCons(c: char, rest: string, src: string, s: nat)
    requires s < |src|
    ensures LiteralMatches([c] + rest, src, s) == if src[s] == c then LiteralMatches(rest, src, s + 1) else []
  {
    var all := [c] + rest;
    if s + |all| <= |src| {
      var part := src[s..s + |all|];
      assert part == [src[s]] + src[s + 1..s + 1 + |rest|];
      assert part == all <==> part[0] == c && part[1..] == rest;
    }
  }

  /** On the pattern itself the search stops at the other character. */
  lemma {:induction false} StopsAt(pat: string, p: nat, k: nat)
    requires p <= k < |pat| && (pat[k] == ')' || pat[k] == '\0') && forall j :: 0 <= j < k ==> Literal(pat[j])
    ensures Matches(pat, Parse(pat, p), p, [])
         == if pat[k] == ')' then [Failure("invalid pattern capture")] else [Success(k, [])]
    decreases k - p
  {
    if p < k {
      LiteralItem(pat, p);
      assert Parse(pat, p)[1..] == Parse(pat, p + 1);
      OneHas(pat[p], pat[p]);
      StopsAt(pat, p + 1, k);
    }
  }
}
