/** string.find and string.match: where a search starts and what it does there. */
module Finds {
  import opened Texts
  import opened Patterns
  import opened Match
  import opened PatternLaws

  /** The text from `start` to `end` was found; or an error was raised. */
  datatype Found = Found(start: nat, end: nat, caps: seq<Capture>) | NotFound | Raised(message: string)

  /** The position that the third argument names: from 1 on from the front, from -1
      on from the back. */
  function StartAt(init: int, n: nat): (start: nat)
    ensures start <= n
  {
    if init > n then n else if init > 0 then init - 1 else if init == 0 || -init > n then 0 else n + init
  }

  /** Positions 1 to n + 1 count from the front, -n to -1 from the back; those
      before the subject are its start and those behind it its end. */
  lemma Starts(i: int, n: nat)
    ensures 0 <= i <= n ==> StartAt(i + 1, n) == i
    ensures 1 <= i <= n ==> StartAt(-i, n) == n - i
    ensures i > n ==> StartAt(-i, n) == 0 && StartAt(i + 1, n) == n
    ensures StartAt(0, n) == 0
  {
  }

  /** posrelat. */
  method PosRelat(pos: int, n: nat) returns (r: nat)
    ensures r == if pos >= 0 then pos else if -pos > n then 0 else n + pos + 1
  {
    var at := if pos < 0 then pos + (n + 1) else pos;
    r := if at >= 0 then at else 0;
  }

  /** strpbrk, which stops at a zero. */
  method HasSpecials(pat: string) returns (has: bool)
    ensures has == !NoSpecials(pat)
  {
    var i := 0;
    while i < |pat| && pat[i] != '\0'
      invariant 0 <= i <= |pat|
      invariant forall k :: 0 <= k < i ==> pat[k] !in SPECIALS && pat[k] != '\0'
    {
      if pat[i] in SPECIALS {
        assert !NoSpecials(pat);
        return true;
      }
      i := i + 1;
    }
    has := false;
  }

  /** lmemfind, from `init` on. */
  method PlainFind(src: string, init: nat, pat: string) returns (f: Found)
    requires init <= |src|
    ensures f.Found? ==> init <= f.start && HasAt(src, f.start, pat) && f.end == f.start + |pat| && f.caps == []
    ensures f.Found? ==> forall k :: init <= k < f.start ==> !HasAt(src, k, pat)
    ensures !f.Found? ==> f == NotFound && forall k: nat :: init <= k ==> !HasAt(src, k, pat)
  {
    var s := init;
    while s + |pat| <= |src|
      invariant init <= s
      invariant forall k :: init <= k < s ==> !HasAt(src, k, pat)
    {
      if src[s..s + |pat|] == pat {
        return Found(s, s + |pat|, []);
      }
      s := s + 1;
    }
    f := NotFound;
  }

  /** Whether the search takes the pattern as it is. */
  ghost predicate Literally(pat: string, find: bool, plain: bool) {
    find && (plain || NoSpecials(pat))
  }

  predicate Anchored(pat: string) {
    At(pat, 0) == '^'
  }

  /** The items of a pattern, behind the circumflex if there is one. */
  function ItemsOf(pat: string): seq<Item> {
    if Anchored(pat) then Parse(pat, 1) else Parse(pat, 0)
  }

  /** The result is that of the first position that has an outcome; a circumflex
      at the beginning allows only the first position. */
  ghost predicate FoundBy(f: Found, src: string, pat: string, init: nat) {
    exists s1: nat :: FoundAt(f, src, ItemsOf(pat), Anchored(pat), init, s1)
  }

  ghost predicate FoundAt(f: Found, src: string, items: seq<Item>, anchor: bool, init: nat, s1: nat) {
    && init <= s1 <= |src| && (anchor ==> s1 == init)
    && (forall k: nat :: init <= k < s1 ==> Matches(src, items, k, []) == [])
    && if f.NotFound? then Matches(src, items, s1, []) == [] && (anchor || s1 == |src|)
       else OutcomeAt(f, s1, Matches(src, items, s1, []))
  }

  predicate OutcomeAt(f: Found, s1: nat, outs: seq<Outcome>) {
    outs != [] && f == if outs[0].Success? then Found(s1, outs[0].end, outs[0].caps) else Raised(outs[0].message)
  }

  /** str_find_aux. */
  method StrFindAux(src: string, pat: string, init: int, find: bool, plain: bool) returns (f: Found)
    ensures Literally(pat, find, plain) ==>
      if f.Found? then
        StartAt(init, |src|) <= f.start && HasAt(src, f.start, pat) && f.end == f.start + |pat| && f.caps == []
        && forall k :: StartAt(init, |src|) <= k < f.start ==> !HasAt(src, k, pat)
      else f == NotFound && forall k: nat :: StartAt(init, |src|) <= k ==> !HasAt(src, k, pat)
    ensures !Literally(pat, find, plain) ==> FoundBy(f, src, pat, StartAt(init, |src|))
  {
    var at: int := PosRelat(init, |src|);
    at := at - 1;
    if at < 0 {
      at := 0;
    } else if at > |src| {
      at := |src|;
    }
    var special := HasSpecials(pat);
    if find && (plain || !special) {
      f := PlainFind(src, at, pat);
    } else {
      var anchor := Anchored(pat);
      var ms := new MatchState(src, pat);
      var s1, r := ms.Find(at, if anchor then 1 else 0, anchor);
      assert Agrees(r, [], ms.Caps(), Matches(src, ItemsOf(pat), s1, []));
      match r {
        case Matched(end) => f := Found(s1, end, ms.CaptureSeq());
        case NoMatch => f := NotFound;
        case Error(message) => f := Raised(message);
      }
      assert FoundAt(f, src, ItemsOf(pat), anchor, at, s1);
    }
  }

  /** A class with a plus finds the first run of its characters, all of it. */
  lemma FirstRun(f: Found, src: string, cls: string, init: nat)
    requires ClassText(cls) && cls != "^" && init <= |src| && FoundBy(f, src, cls + "+", init)
    ensures f.Found? ==> init <= f.start < f.end && LongestRun(src, f.start, f.end, cls) && f.caps == []
    ensures f.Found? ==> forall k :: init <= k < f.start ==> !ClassHas(cls, src[k])
    ensures !f.Found? ==> f == NotFound && forall k :: init <= k < |src| ==> !ClassHas(cls, src[k])
  {
    var pat := cls + "+";
    assert At(pat, 0) == cls[0];
    assert !Anchored(pat);
    var items := Parse(pat, 0);
    var s1: nat :| FoundAt(f, src, items, false, init, s1);
    hide Matches, Parse, ClassHas, ClassText, LongestRun;
    forall k | init <= k <= s1 && k < |src| && Matches(src, items, k, []) == []
      ensures !ClassHas(cls, src[k])
    {
      RunsAt(src, cls, k);
    }
    RunsAt(src, cls, s1);
  }

  ghost predicate RunAt(src: string, cls: string, k: nat, outs: seq<Outcome>)
    requires ClassText(cls)
  {
    if outs == [] then k < |src| ==> !ClassHas(cls, src[k])
    else outs[0].Success? && outs[0].caps == [] && k < outs[0].end && LongestRun(src, k, outs[0].end, cls)
  }

  lemma RunsAt(src: string, cls: string, k: nat)
    requires ClassText(cls) && k <= |src|
    ensures RunAt(src, cls, k, Matches(src, Parse(cls + "+", 0), k, []))
  {
    var pat := cls + "+";
    var outs := Matches(src, Parse(pat, 0), k, []);
    assert HasAt(pat, 0, pat);
    hide Matches, Parse, ClassHas, ClassText, LongestRun, HasAt;
    if outs == [] {
      Repeated(src, pat, 0, cls, '+', k, [], NoMatch, []);
    } else if outs[0].Success? {
      Repeated(src, pat, 0, cls, '+', k, [], Matched(outs[0].end), outs[0].caps);
    } else {
      Repeated(src, pat, 0, cls, '+', k, [], Error(outs[0].message), []);
    }
  }

  /** str_gsub, which without a limit replaces all matches. */
  method StrGsub(src: string, pat: string, maxS: int, repl: (string, seq<Capture>) -> string) returns (r: Replacement)
    ensures r == Replaced(src, ItemsOf(pat), 0, if maxS > 0 then maxS else 0,
      Anchored(pat), repl)
  {
    var anchor := Anchored(pat);
    var ms := new MatchState(src, pat);
    r := ms.Gsub(if anchor then 1 else 0, anchor, if maxS > 0 then maxS else 0, repl);
  }
}
