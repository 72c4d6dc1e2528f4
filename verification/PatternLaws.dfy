/** What patterns ask for, character by character, and what a match of them is. */
module PatternLaws {
  import opened Texts
  import opened Patterns
  import opened Match

  // ----- classes of one character -----

  /** A letter after a percent sign, for a character with code `n`. */
  predicate LetterHas(l: char, n: int) {
    if l == 'a' then 65 <= n <= 90 || 97 <= n <= 122
    else if l == 'c' then n <= 31 || n == 127
    else if l == 'd' then 48 <= n <= 57
    else if l == 'l' then 97 <= n <= 122
    else if l == 'p' then 33 <= n <= 47 || 58 <= n <= 64 || 91 <= n <= 96 || 123 <= n <= 126
    else if l == 's' then 9 <= n <= 13 || n == 32
    else if l == 'u' then 65 <= n <= 90
    else if l == 'w' then 48 <= n <= 57 || 65 <= n <= 90 || 97 <= n <= 122
    else if l == 'x' then 48 <= n <= 57 || 65 <= n <= 70 || 97 <= n <= 102
    else if l == 'z' then n == 0
    else if l == 'A' then n < 65 || 90 < n < 97 || 122 < n
    else if l == 'C' then 31 < n && n != 127
    else if l == 'D' then n < 48 || 57 < n
    else if l == 'L' then n < 97 || 122 < n
    else if l == 'P' then n < 33 || 47 < n < 58 || 64 < n < 91 || 96 < n < 123 || 126 < n
    else if l == 'S' then (n < 9 || 13 < n) && n != 32
    else if l == 'U' then n < 65 || 90 < n
    else if l == 'W' then n < 48 || 57 < n < 65 || 90 < n < 97 || 122 < n
    else if l == 'X' then n < 48 || 57 < n < 65 || 70 < n < 97 || 102 < n
    else if l == 'Z' then n != 0
    else n == l as int
  }

  /** A pattern for one character: a point, a character without a meaning of its
      own, or a percent sign and a character that makes a class or stands for
      itself. */
  predicate ClassText(cls: string) {
    || (|cls| == 1 && cls[0] != '\0' && cls[0] !in "()%[")
    || (|cls| == 2 && cls[0] == '%' && cls[1] !in "\0bf0123456789")
  }

  predicate ClassHas(cls: string, x: char)
    requires ClassText(cls)
  {
    if cls == "." then true else if |cls| == 1 then x == cls[0] else LetterHas(cls[1], x as int)
  }

  lemma LetterMeans(l: char, x: char)
    ensures MatchClass(x, l) <==> LetterHas(l, x as int)
  {
  }

  lemma LetterSet(l: char, x: char)
    ensures Members(false, [Letter(l)]).Has(x) <==> LetterHas(l, x as int)
  {
    LetterMeans(l, x);
    assert [Letter(l)][0].Has(x) <==> MatchClass(x, l);
  }

  /** The class at `p` of a pattern. A dollar at the end is none. */
  lemma ClassParsed(pat: string, p: nat, cls: string)
    requires HasAt(pat, p, cls) && ClassText(cls) && (cls == "$" ==> At(pat, p + 1) != '\0')
    ensures p + |cls| <= |pat| && ClassEnd(pat, p) == End(p + |cls|) && Parse(pat, p) == ParseChars(pat, p)
    ensures forall x :: SetAt(pat, p, p + |cls|).Has(x) <==> ClassHas(cls, x)
  {
    HasInside(pat, p, cls);
    HasNth(pat, p, cls, 0);
    if |cls| == 2 {
      HasNth(pat, p, cls, 1);
    }
    forall x
      ensures SetAt(pat, p, p + |cls|).Has(x) <==> ClassHas(cls, x)
    {
      if |cls| == 2 {
        LetterSet(cls[1], x);
      } else {
        OneHas(cls[0], x);
      }
    }
  }

  // ----- repetitions -----

  /** All characters from `s` to `e` are in the class. */
  ghost predicate AllIn(src: string, s: nat, e: nat, cls: string)
    requires ClassText(cls)
  {
    s <= e <= |src| && forall k :: s <= k < e ==> ClassHas(cls, src[k])
  }

  /** The longest such run. */
  ghost predicate LongestRun(src: string, s: nat, e: nat, cls: string)
    requires ClassText(cls)
  {
    AllIn(src, s, e, cls) && (e < |src| ==> !ClassHas(cls, src[e]))
  }

  ghost predicate Takes(src: string, of: CharSet, s: nat, k: nat) {
    s <= k <= |src| && forall j :: s <= j < k ==> TakesAt(src, j, of)
  }

  /** The first of all matches comes from the most repetitions after which the
      rest matches. */
  lemma {:induction false} GreedyLongest(src: string, of: CharSet, rest: seq<Item>, s: nat,
      caps: seq<Capture>) returns (k: nat)
    requires s <= |src| && CapsOk(caps, s) && Greedy(src, of, rest, s, caps) != []
    ensures Takes(src, of, s, k) && CapsOk(caps, k) && Matches(src, rest, k, caps) != []
    ensures Matches(src, rest, k, caps)[0] == Greedy(src, of, rest, s, caps)[0]
    ensures forall j :: k < j && Takes(src, of, s, j) ==> CapsOk(caps, j) && Matches(src, rest, j, caps) == []
    decreases |src| - s
  {
    hide Greedy, Matches, CapsOk;
    CapsLater(caps, s);
    if TakesAt(src, s, of) {
      GreedyMore(src, of, rest, s, caps);
    } else {
      GreedyEnd(src, of, rest, s, caps);
    }
    if TakesAt(src, s, of) && Greedy(src, of, rest, s + 1, caps) != [] {
      k := GreedyLongest(src, of, rest, s + 1, caps);
    } else {
      k := s;
      forall j | k < j && Takes(src, of, s, j)
        ensures CapsOk(caps, j) && Matches(src, rest, j, caps) == []
      {
        GreedyNone(src, of, rest, s + 1, j, caps);
      }
    }
  }

  lemma {:induction false} GreedyNone(src: string, of: CharSet, rest: seq<Item>, s: nat, j: nat, caps: seq<Capture>)
    requires s <= |src| && CapsOk(caps, s) && Greedy(src, of, rest, s, caps) == [] && Takes(src, of, s, j)
    ensures CapsOk(caps, j) && Matches(src, rest, j, caps) == []
    decreases |src| - s
  {
    CapsLater(caps, s);
    if j > s {
      GreedyNone(src, of, rest, s + 1, j, caps);
    }
  }

  /** And from the fewest. */
  lemma {:induction false} LazyShortest(src: string, of: CharSet, rest: seq<Item>, s: nat,
      caps: seq<Capture>) returns (k: nat)
    requires s <= |src| && CapsOk(caps, s) && Lazy(src, of, rest, s, caps) != []
    ensures Takes(src, of, s, k) && CapsOk(caps, k) && Matches(src, rest, k, caps) != []
    ensures Matches(src, rest, k, caps)[0] == Lazy(src, of, rest, s, caps)[0]
    ensures forall j :: s <= j < k ==> CapsOk(caps, j) && Matches(src, rest, j, caps) == []
    decreases |src| - s
  {
    hide Lazy, Matches, CapsOk;
    CapsLater(caps, s);
    k := s;
    if Matches(src, rest, s, caps) == [] {
      LazyGoesOn(src, of, rest, s, caps);
      k := LazyShortest(src, of, rest, s + 1, caps);
    } else {
      var more := LazyNext(src, of, rest, s, caps);
    }
  }

  /** A class with its repetition is one item. */
  lemma RepeatedItem(pat: string, p: nat, cls: string, rep: char) returns (of: CharSet)
    requires HasAt(pat, p, cls + [rep]) && ClassText(cls) && rep in "*+-?"
    ensures p + |cls| + 1 <= |pat|
    ensures Parse(pat, p) == [Chars(of, if rep == '*' then Longest else if rep == '+' then LongestOne
      else if rep == '-' then Shortest else Optional)] + Parse(pat, p + |cls| + 1)
    ensures forall x :: of.Has(x) <==> ClassHas(cls, x)
  {
    HasSplit(pat, p, cls, [rep]);
    HasNth(pat, p + |cls|, [rep], 0);
    HasInside(pat, p, cls + [rep]);
    if |cls| == 1 {
      HasNth(pat, p, cls + [rep], 1);
    }
    ClassParsed(pat, p, cls);
    of := SetAt(pat, p, p + |cls|);
  }

  /** A class and a repetition at the end of a pattern: `*` and `+` take as many
      characters as they can, `-` none, and `?` one if it can. */
  lemma Repeated(src: string, pat: string, p: nat, cls: string, rep: char, s: nat, was: seq<Capture>, r: Result,
      now: seq<Capture>)
    requires p + |cls| + 1 == |pat| && HasAt(pat, p, cls + [rep]) && ClassText(cls) && rep in "*+-?"
    requires s <= |src| && CapsOk(was, s) && Agrees(r, was, now, Matches(src, Parse(pat, p), s, was))
    ensures now == was
    ensures rep == '*' ==> r.Matched? && LongestRun(src, s, r.end, cls)
    ensures rep == '+' && s < |src| && ClassHas(cls, src[s]) ==>
      r.Matched? && s < r.end && LongestRun(src, s, r.end, cls)
    ensures rep == '+' && !(s < |src| && ClassHas(cls, src[s])) ==> r == NoMatch
    ensures rep == '-' ==> r == Matched(s)
    ensures rep == '?' ==> r == Matched(if s < |src| && ClassHas(cls, src[s]) then s + 1 else s)
  {
    var of := RepeatedItem(pat, p, cls, rep);
    assert Parse(pat, |pat|) == [];
    var repeat := Parse(pat, p)[0].repeat;
    assert Parse(pat, p) == [Chars(of, repeat)];
    hide Parse, HasAt, CharSet.Has, Matches, Greedy;
    LastItem(src, of, repeat, s, was);
    if repeat == Longest {
      LongestEnd(src, of, s, was, cls);
    } else if repeat == LongestOne && TakesAt(src, s, of) {
      LongestEnd(src, of, s + 1, was, cls);
    }
  }

  /** The first match of one item with nothing after it. */
  lemma LastItem(src: string, of: CharSet, repeat: Repeat, s: nat, caps: seq<Capture>)
    requires s <= |src| && CapsOk(caps, s)
    ensures TakesAt(src, s, of) ==> s < |src| && CapsOk(caps, s + 1)
    ensures var outs := Matches(src, [Chars(of, repeat)], s, caps);
      match repeat
      case Once => outs == if TakesAt(src, s, of) then [Success(s + 1, caps)] else []
      case Optional => outs != [] && outs[0] == Success(if TakesAt(src, s, of) then s + 1 else s, caps)
      case Longest => outs == Greedy(src, of, [], s, caps)
      case LongestOne => outs == if TakesAt(src, s, of) then Greedy(src, of, [], s + 1, caps) else []
      case Shortest => outs != [] && outs[0] == Success(s, caps)
  {
    CapsLater(caps, s);
    var items := [Chars(of, repeat)];
    assert items[1..] == [];
    assert Matches(src, [], s, caps) == [Success(s, caps)];
    if TakesAt(src, s, of) {
      assert Matches(src, [], s + 1, caps) == [Success(s + 1, caps)];
    }
    if repeat == Shortest {
      var more := LazyNext(src, of, [], s, caps);
    }
  }

  /** With nothing after it, the longest repetition is the longest run. */
  lemma {:induction false} LongestEnd(src: string, of: CharSet, s: nat, caps: seq<Capture>, cls: string)
    requires s <= |src| && CapsOk(caps, s) && ClassText(cls) && forall x :: of.Has(x) <==> ClassHas(cls, x)
    ensures Greedy(src, of, [], s, caps) != []
    ensures var first := Greedy(src, of, [], s, caps)[0];
      first.Success? && first.caps == caps && LongestRun(src, s, first.end, cls)
    decreases |src| - s
  {
    CapsLater(caps, s);
    NothingLeft(src, s, caps);
    if TakesAt(src, s, of) {
      GreedyMore(src, of, [], s, caps);
      LongestEnd(src, of, s + 1, caps, cls);
      hide Greedy, Matches, CapsOk, ClassHas, CharSet.Has;
      assert Greedy(src, of, [], s, caps)[0] == Greedy(src, of, [], s + 1, caps)[0];
    } else {
      GreedyEnd(src, of, [], s, caps);
    }
  }

  /** A repetition before more of the pattern: the longest, or shortest, number
      after which the rest matches decides, and none when there is no such. */
  lemma RepeatedBefore(src: string, pat: string, p: nat, cls: string, rep: char, s: nat, was: seq<Capture>, r: Result,
      now: seq<Capture>) returns (k: nat)
    requires HasAt(pat, p, cls + [rep]) && ClassText(cls) && (rep == '*' || rep == '-')
    requires s <= |src| && CapsOk(was, s) && Agrees(r, was, now, Matches(src, Parse(pat, p), s, was))
    ensures r == NoMatch ==> now == was && forall e: nat :: AllIn(src, s, e, cls) ==>
      CapsOk(was, e) && Matches(src, Parse(pat, p + |cls| + 1), e, was) == []
    ensures r != NoMatch ==> AllIn(src, s, k, cls) && CapsOk(was, k)
    ensures r != NoMatch ==> Agrees(r, was, now, Matches(src, Parse(pat, p + |cls| + 1), k, was))
    ensures r != NoMatch ==> forall e: nat :: AllIn(src, s, e, cls) && (if rep == '*' then e > k else e < k) ==>
      CapsOk(was, e) && Matches(src, Parse(pat, p + |cls| + 1), e, was) == []
  {
    var of := RepeatedItem(pat, p, cls, rep);
    var rest := Parse(pat, p + |cls| + 1);
    assert Parse(pat, p)[1..] == rest;
    forall e: nat
      ensures Takes(src, of, s, e) <==> AllIn(src, s, e, cls)
    {
      TakesAll(src, of, cls, s, e);
    }
    k := s;
    assert Matches(src, Parse(pat, p), s, was)
      == if rep == '*' then Greedy(src, of, rest, s, was) else Lazy(src, of, rest, s, was);
    hide Matches, Parse, Greedy, Lazy, CharSet.Has, ClassHas, SetAt;
    AgreesCases(r, was, now, if rep == '*' then Greedy(src, of, rest, s, was) else Lazy(src, of, rest, s, was));
    if r == NoMatch {
      forall e: nat | AllIn(src, s, e, cls)
        ensures CapsOk(was, e) && Matches(src, rest, e, was) == []
      {
        if rep == '*' {
          GreedyNone(src, of, rest, s, e, was);
        } else {
          LazyNone(src, of, rest, s, e, was);
        }
      }
    } else if rep == '*' {
      k := GreedyLongest(src, of, rest, s, was);
    } else {
      k := LazyShortest(src, of, rest, s, was);
    }
  }

  lemma TakesAll(src: string, of: CharSet, cls: string, s: nat, e: nat)
    requires ClassText(cls) && forall x :: of.Has(x) <==> ClassHas(cls, x)
    ensures Takes(src, of, s, e) <==> AllIn(src, s, e, cls)
  {
    if Takes(src, of, s, e) {
      forall k | s <= k < e
        ensures ClassHas(cls, src[k])
      {
        assert TakesAt(src, k, of);
      }
    }
  }

  lemma {:induction false} LazyNone(src: string, of: CharSet, rest: seq<Item>, s: nat, j: nat, caps: seq<Capture>)
    requires s <= |src| && CapsOk(caps, s) && Lazy(src, of, rest, s, caps) == [] && Takes(src, of, s, j)
    ensures CapsOk(caps, j) && Matches(src, rest, j, caps) == []
    decreases |src| - s
  {
    CapsLater(caps, s);
    if j > s {
      LazyNone(src, of, rest, s + 1, j, caps);
    }
  }

  // ----- single items at the end of a pattern -----

  lemma OneClass(src: string, pat: string, p: nat, cls: string, s: nat, was: seq<Capture>, r: Result, now: seq<Capture>)
    requires p + |cls| == |pat| && HasAt(pat, p, cls) && ClassText(cls) && cls != "$"
    requires s <= |src| && CapsOk(was, s) && Agrees(r, was, now, Matches(src, Parse(pat, p), s, was))
    ensures r == (if s < |src| && ClassHas(cls, src[s]) then Matched(s + 1) else NoMatch) && now == was
  {
    ClassParsed(pat, p, cls);
    OnlyItem(pat, p);
    var of := SetAt(pat, p, |pat|);
    hide Parse, SetAt, HasAt, ClassHas, CharSet.Has, CapsOk;
    LastItem(src, of, Once, s, was);
  }

  lemma OnlyItem(pat: string, p: nat)
    requires p < |pat| && Parse(pat, p) == ParseChars(pat, p) && ClassEnd(pat, p) == End(|pat|)
    ensures Parse(pat, p) == [Chars(SetAt(pat, p, |pat|), Once)]
  {
    assert Parse(pat, |pat|) == [];
  }

  lemma DollarAtEnd(src: string, pat: string, p: nat, s: nat, was: seq<Capture>, r: Result, now: seq<Capture>)
    requires p + 1 == |pat| && pat[p] == '$'
    requires s <= |src| && CapsOk(was, s) && Agrees(r, was, now, Matches(src, Parse(pat, p), s, was))
    ensures r == (if s == |src| then Matched(s) else NoMatch) && now == was
  {
    assert Matches(src, [], s, was) == [Success(s, was)];
    assert Parse(pat, p)[1..] == [];
  }

  // ----- sets -----

  /** Characters that have no meaning of their own between brackets. */
  predicate PlainMembers(m: string) {
    m != "" && forall i :: 0 <= i < |m| ==> m[i] !in "\0]%-^"
  }

  lemma {:induction false} MembersAre(pat: string, p: nat, m: string, x: char)
    requires HasAt(pat, p, m + "]") && forall i :: 0 <= i < |m| ==> m[i] !in "\0]%-^"
    ensures HasMember(MembersAt(pat, p, p + |m|), x) <==> x in m
    decreases |m|
  {
    if m != "" {
      HasNth(pat, p, m + "]", 0);
      HasNth(pat, p, m + "]", 1);
      assert m + "]" == [m[0]] + (m[1..] + "]");
      HasSplit(pat, p, [m[0]], m[1..] + "]");
      MembersAre(pat, p + 1, m[1..], x);
      var members := MembersAt(pat, p, p + |m|);
      assert members == [One(m[0])] + MembersAt(pat, p + 1, p + |m|);
      MemberFirst(members, x);
      assert members[0].Has(x) <==> x == m[0];
    }
  }

  lemma {:induction false} MembersEnd(pat: string, p: nat, m: string)
    requires HasAt(pat, p, m + "]") && PlainMembers(m)
    ensures p <= |pat| && BracketEnd(pat, p) == End(p + |m| + 1)
    decreases |m|
  {
    HasInside(pat, p, m + "]");
    HasNth(pat, p, m + "]", 0);
    HasNth(pat, p, m + "]", 1);
    if |m| > 1 {
      assert m + "]" == [m[0]] + (m[1..] + "]");
      HasSplit(pat, p, [m[0]], m[1..] + "]");
      MembersEnd(pat, p + 1, m[1..]);
    }
  }

  /** A set of plain characters, negated by a circumflex. */
  lemma SetOfChars(src: string, pat: string, p: nat, negated: bool, m: string, s: nat, was: seq<Capture>, r: Result,
      now: seq<Capture>)
    requires p <= |pat| && pat[..p] + ((if negated then "[^" else "[") + (m + "]")) == pat && PlainMembers(m)
    requires s <= |src| && CapsOk(was, s) && Agrees(r, was, now, Matches(src, Parse(pat, p), s, was))
    ensures r == (if s < |src| && (src[s] in m) != negated then Matched(s + 1) else NoMatch) && now == was
  {
    var open := if negated then "[^" else "[";
    var q := p + |open|;
    TailAt(pat, p, open, m + "]");
    HasNth(pat, p, open, 0);
    HasNth(pat, q, m + "]", 0);
    if negated {
      HasNth(pat, p, open, 1);
    }
    MembersEnd(pat, q, m);
    assert ClassEnd(pat, p) == End(|pat|);
    var of := BracketAt(pat, p, |pat| - 1);
    if s < |src| {
      MembersAre(pat, q, m, src[s]);
    }
    assert of.negated == negated && of.members == MembersAt(pat, q, q + |m|);
    hide Parse, BracketAt, ClassEnd, CapsOk, HasAt, HasMember, MembersAt, PlainMembers;
    OneSet(src, pat, p, of, s, was, r, now);
  }

  /** What the end of a pattern says about its positions. */
  lemma TailAt(pat: string, p: nat, a: string, b: string)
    requires p <= |pat| && pat[..p] + (a + b) == pat
    ensures HasAt(pat, p, a) && HasAt(pat, p + |a|, b) && |pat| == p + |a| + |b|
  {
    assert pat[p..p + |a + b|] == a + b;
    HasSplit(pat, p, a, b);
  }

  lemma OneSet(src: string, pat: string, p: nat, of: CharSet, s: nat, was: seq<Capture>, r: Result, now: seq<Capture>)
    requires p < |pat| && pat[p] == '[' && ClassEnd(pat, p) == End(|pat|) && of == BracketAt(pat, p, |pat| - 1)
    requires s <= |src| && CapsOk(was, s) && Agrees(r, was, now, Matches(src, Parse(pat, p), s, was))
    ensures r == (if TakesAt(src, s, of) then Matched(s + 1) else NoMatch) && now == was
  {
    OnlyItem(pat, p);
    assert SetAt(pat, p, |pat|) == of;
    hide Parse, SetAt, BracketAt, ClassEnd, CharSet.Has, CapsOk;
    LastItem(src, of, Once, s, was);
  }

  /** A range in a set. */
  lemma SetOfRange(src: string, pat: string, p: nat, a: char, b: char, s: nat, was: seq<Capture>, r: Result,
      now: seq<Capture>)
    requires p <= |pat| && pat[..p] + ("[" + [a, '-', b, ']']) == pat && a !in "\0]%^" && b !in "\0]%^"
    requires s <= |src| && CapsOk(was, s) && Agrees(r, was, now, Matches(src, Parse(pat, p), s, was))
    ensures r == (if s < |src| && a <= src[s] <= b then Matched(s + 1) else NoMatch) && now == was
  {
    RangeItem(pat, p, a, b);
    assert [Range(a, b)][0] == Range(a, b);
    hide Parse, BracketAt, ClassEnd, CapsOk;
    OneSet(src, pat, p, Members(false, [Range(a, b)]), s, was, r, now);
  }

  lemma RangeItem(pat: string, p: nat, a: char, b: char)
    requires p <= |pat| && pat[..p] + ("[" + [a, '-', b, ']']) == pat && a !in "\0]%^" && b !in "\0]%^"
    ensures |pat| == p + 5 && pat[p] == '[' && ClassEnd(pat, p) == End(|pat|)
    ensures BracketAt(pat, p, |pat| - 1) == Members(false, [Range(a, b)])
  {
    TailAt(pat, p, "[", [a, '-', b, ']']);
    assert pat[p..] == ['[', a, '-', b, ']'];
    assert pat[p] == pat[p..][0] && pat[p + 1] == pat[p..][1] && pat[p + 2] == pat[p..][2] && pat[p + 3] == pat[p..][3];
    assert pat[p + 4] == pat[p..][4];
    hide HasAt;
    assert BracketEnd(pat, p + 3) == End(p + 5);
    assert BracketEnd(pat, p + 2) == End(p + 5);
    assert MembersAt(pat, p + 4, p + 4) == [];
  }

  /** A letter class in a set. */
  lemma SetOfLetter(src: string, pat: string, p: nat, l: char, s: nat, was: seq<Capture>, r: Result,
      now: seq<Capture>)
    requires p <= |pat| && pat[..p] + ("[" + ['%', l, ']']) == pat && l != '\0'
    requires s <= |src| && CapsOk(was, s) && Agrees(r, was, now, Matches(src, Parse(pat, p), s, was))
    ensures r == (if s < |src| && LetterHas(l, src[s] as int) then Matched(s + 1) else NoMatch) && now == was
  {
    LetterItem(pat, p, l);
    if s < |src| {
      LetterSet(l, src[s]);
    }
    hide Parse, BracketAt, ClassEnd, CapsOk, CharSet.Has, LetterHas;
    OneSet(src, pat, p, Members(false, [Letter(l)]), s, was, r, now);
  }

  lemma LetterItem(pat: string, p: nat, l: char)
    requires p <= |pat| && pat[..p] + ("[" + ['%', l, ']']) == pat && l != '\0'
    ensures |pat| == p + 4 && pat[p] == '[' && ClassEnd(pat, p) == End(|pat|)
    ensures BracketAt(pat, p, |pat| - 1) == Members(false, [Letter(l)])
  {
    TailAt(pat, p, "[", ['%', l, ']']);
    assert pat[p..] == ['[', '%', l, ']'];
    assert pat[p] == pat[p..][0] && pat[p + 1] == pat[p..][1] && pat[p + 2] == pat[p..][2] && pat[p + 3] == pat[p..][3];
    hide HasAt;
    assert MembersAt(pat, p + 3, p + 3) == [];
  }

  // ----- captures -----

  /** One more capture, of one character. */
  lemma CaptureOne(src: string, pat: string, p: nat, cls: string, s: nat, was: seq<Capture>, r: Result,
      now: seq<Capture>)
    requires p <= |pat| && pat[..p] + ("(" + (cls + ")")) == pat && ClassText(cls)
    requires s <= |src| && CapsOk(was, s) && Agrees(r, was, now, Matches(src, Parse(pat, p), s, was))
    ensures |was| == 32 ==> r == Error("too many captures")
    ensures |was| < 32 && s < |src| && ClassHas(cls, src[s]) ==>
      r == Matched(s + 1) && now == was + [Capture(s, 1)]
    ensures |was| < 32 && !(s < |src| && ClassHas(cls, src[s])) ==> r == NoMatch && now == was
  {
    TailAt(pat, p, "(", cls + ")");
    var of := CaptureItems(pat, p, cls, ")");
    assert Parse(pat, |pat|) == [];
    assert Parse(pat, p) == [Open(false), Chars(of, Once), Close] + [];
    hide Parse, HasAt, CharSet.Has;
    CapturedOne(src, of, [], s, was);
    if |was| < 32 && TakesAt(src, s, of) {
      NothingLeft(src, s + 1, was + [Capture(s, 1)]);
    }
  }

  lemma NothingLeft(src: string, s: nat, caps: seq<Capture>)
    requires s <= |src| && CapsOk(caps, s)
    ensures Matches(src, [], s, caps) == [Success(s, caps)]
  {
  }

  /** The items of a captured class and what follows it. */
  lemma CaptureItems(pat: string, p: nat, cls: string, rest: string) returns (of: CharSet)
    requires HasAt(pat, p, "(") && HasAt(pat, p + 1, cls + rest) && ClassText(cls) && rest != "" && rest[0] == ')'
    ensures p + 2 + |cls| <= |pat|
    ensures Parse(pat, p) == [Open(false), Chars(of, Once), Close] + Parse(pat, p + 2 + |cls|)
    ensures forall x :: of.Has(x) <==> ClassHas(cls, x)
  {
    HasNth(pat, p, "(", 0);
    HasSplit(pat, p + 1, cls, rest);
    HasNth(pat, p + 1 + |cls|, rest, 0);
    HasInside(pat, p + 1 + |cls|, rest);
    HasNth(pat, p + 1, cls, 0);
    ClassParsed(pat, p + 1, cls);
    of := SetAt(pat, p + 1, p + 1 + |cls|);
    assert Parse(pat, p + 1 + |cls|) == [Close] + Parse(pat, p + 2 + |cls|);
    assert Parse(pat, p + 1) == [Chars(of, Once)] + Parse(pat, p + 1 + |cls|);
  }

  /** The matches of a captured character and what comes after it. */
  lemma CapturedOne(src: string, of: CharSet, rest: seq<Item>, s: nat, was: seq<Capture>)
    requires s <= |src| && CapsOk(was, s)
    ensures |was| < 32 && TakesAt(src, s, of) ==> s < |src| && CapsOk(was + [Capture(s, 1)], s + 1)
    ensures Matches(src, [Open(false), Chars(of, Once), Close] + rest, s, was)
      == if |was| == 32 then [Failure("too many captures")]
         else if TakesAt(src, s, of) then Matches(src, rest, s + 1, was + [Capture(s, 1)]) else []
  {
    var items := [Open(false), Chars(of, Once), Close] + rest;
    var last := [Close] + rest;
    assert items[1..] == [Chars(of, Once)] + last;
    assert ([Chars(of, Once)] + last)[1..] == last && last[1..] == rest;
    if |was| < 32 {
      var caps := was + [Capture(s, CAP_UNFINISHED)];
      CapsLater(was, s);
      CapsLater(caps, s);
      assert Matches(src, items, s, was) == Matches(src, [Chars(of, Once)] + last, s, caps);
      if TakesAt(src, s, of) {
        assert Matches(src, items, s, was) == Matches(src, last, s + 1, caps);
        ClosesLast(src, rest, s + 1, was, s);
      }
    }
  }

  /** The innermost open capture is closed. */
  lemma ClosesLast(src: string, rest: seq<Item>, e: nat, was: seq<Capture>, s: nat)
    requires s <= e <= |src| && CapsOk(was, e) && |was| < 32
    ensures CapsOk(was + [Capture(s, e - s)], e) && CapsOk(was + [Capture(s, CAP_UNFINISHED)], e)
    ensures Matches(src, [Close] + rest, e, was + [Capture(s, CAP_UNFINISHED)])
      == Matches(src, rest, e, was + [Capture(s, e - s)])
  {
    var caps := was + [Capture(s, CAP_UNFINISHED)];
    assert CapsOk(caps, e);
    hide CapsOk;
    assert LastOpen(caps, |caps|) == |was|;
    assert caps[|was| := Capture(s, e - s)] == was + [Capture(s, e - s)];
    assert ([Close] + rest)[1..] == rest;
  }

  /** Empty parentheses capture the position. */
  lemma CapturePosition(src: string, pat: string, p: nat, s: nat, was: seq<Capture>, r: Result, now: seq<Capture>)
    requires p + 2 == |pat| && pat[p] == '(' && pat[p + 1] == ')'
    requires s <= |src| && CapsOk(was, s) && Agrees(r, was, now, Matches(src, Parse(pat, p), s, was))
    ensures r == (if |was| == 32 then Error("too many captures") else Matched(s))
    ensures |was| < 32 ==> now == was + [Capture(s, -2)]
  {
    assert Parse(pat, |pat|) == [];
    assert Parse(pat, p)[1..] == [];
    if |was| < 32 {
      assert Matches(src, [], s, was + [Capture(s, -2)]) == [Success(s, was + [Capture(s, -2)])];
    }
  }

  /** A back reference: the same character twice. */
  lemma SameTwice(src: string, pat: string, cls: string, s: nat, r: Result, now: seq<Capture>)
    requires pat == "(" + (cls + ")%1") && ClassText(cls)
    requires s <= |src| && Agrees(r, [], now, Matches(src, Parse(pat, 0), s, []))
    ensures s + 1 < |src| && ClassHas(cls, src[s]) && src[s + 1] == src[s] ==>
      r == Matched(s + 2) && now == [Capture(s, 1)]
    ensures !(s + 1 < |src| && ClassHas(cls, src[s]) && src[s + 1] == src[s]) ==> r == NoMatch && now == []
  {
    var of := SameItems(pat, cls);
    hide Parse, CharSet.Has, CapsOk, ClassText;
    CapturedOne(src, of, [Back(0)], s, []);
    hide Matches;
    if TakesAt(src, s, of) {
      BackToOne(src, s, [] + [Capture(s, 1)]);
    }
  }

  lemma SameItems(pat: string, cls: string) returns (of: CharSet)
    requires pat == "(" + (cls + ")%1") && ClassText(cls)
    ensures Parse(pat, 0) == [Open(false), Chars(of, Once), Close] + [Back(0)]
    ensures forall x :: of.Has(x) <==> ClassHas(cls, x)
  {
    of := SameHead(pat, cls, ")%1");
    SameTail(pat, cls);
    BackItem(pat, 2 + |cls|);
  }

  lemma SameHead(pat: string, cls: string, rest: string) returns (of: CharSet)
    requires pat == "(" + (cls + rest) && ClassText(cls) && rest != "" && rest[0] == ')'
    ensures Parse(pat, 0) == [Open(false), Chars(of, Once), Close] + Parse(pat, 2 + |cls|)
    ensures forall x :: of.Has(x) <==> ClassHas(cls, x)
  {
    hide *;
    Whole(pat);
    HasSplit(pat, 0, "(", cls + rest);
    of := CaptureItems(pat, 0, cls, rest);
  }

  lemma Whole(pat: string)
    ensures HasAt(pat, 0, pat)
  {
  }

  lemma SameTail(pat: string, cls: string)
    requires pat == "(" + (cls + ")%1")
    ensures |pat| == |cls| + 4 && pat[2 + |cls|] == '%' && pat[3 + |cls|] == '1'
  {
  }

  lemma BackItem(pat: string, p: nat)
    requires p + 2 == |pat| && pat[p] == '%' && pat[p + 1] == '1'
    ensures Parse(pat, p) == [Back(0)]
  {
    OddItems(pat, p);
    assert Parse(pat, |pat|) == [];
  }

  lemma BackToOne(src: string, s: nat, caps: seq<Capture>)
    requires s + 1 <= |src| && caps == [Capture(s, 1)]
    ensures CapsOk(caps, s + 1) && (s + 1 < |src| ==> CapsOk(caps, s + 2))
    ensures Matches(src, [Back(0)], s + 1, caps)
      == if s + 1 < |src| && src[s + 1] == src[s] then [Success(s + 2, caps)] else []
  {
    assert [Back(0)][1..] == [];
    CapsLater(caps, s + 1);
    if s + 1 < |src| {
      assert src[s + 1..s + 2] == [src[s + 1]] && src[s..s + 1] == [src[s]];
      assert [src[s + 1]][0] == src[s + 1] && [src[s]][0] == src[s];
      NothingLeft(src, s + 2, caps);
    }
  }

  /** No more than 32 captures. */
  lemma TooMany(src: string, pat: string, s: nat, r: Result, now: seq<Capture>)
    requires s <= |src| && (forall i :: 0 <= i < |pat| ==> pat[i] == '(')
    requires Agrees(r, [], now, Matches(src, Parse(pat, 0), s, []))
    ensures r == if |pat| > 32 then Error("too many captures") else Matched(s)
  {
    OpenAll(src, pat, 0, s, []);
  }

  lemma {:induction false} OpenAll(src: string, pat: string, p: nat, s: nat, caps: seq<Capture>)
    requires p <= |pat| && s <= |src| && CapsOk(caps, s) && forall i :: 0 <= i < |pat| ==> pat[i] == '('
    ensures var outs := Matches(src, Parse(pat, p), s, caps);
      outs != [] && if |caps| + |pat| - p > 32 then outs[0] == Failure("too many captures")
                    else outs[0].Success? && outs[0].end == s
    decreases |pat| - p
  {
    if p < |pat| {
      assert Parse(pat, p)[1..] == Parse(pat, p + 1);
      if |caps| < 32 {
        OpenAll(src, pat, p + 1, s, caps + [Capture(s, CAP_UNFINISHED)]);
      }
    }
  }

  // ----- balanced text and frontiers -----

  ghost predicate BalancedFrom(src: string, s: nat, e: nat, x: char, y: char) {
    s + 1 < e <= |src| && src[s] == x && BalancedTo(src, s + 1, e, 1, x, y)
  }

  /** Balanced text starts with `x` and ends with the first `y` at which both have
      come equally often. */
  lemma BalancedText(src: string, pat: string, p: nat, x: char, y: char, s: nat, was: seq<Capture>, r: Result,
      now: seq<Capture>)
    requires p <= |pat| && pat[..p] + ("%b" + [x, y]) == pat && x != '\0' && y != '\0' && x != y
    requires s <= |src| && CapsOk(was, s) && Agrees(r, was, now, Matches(src, Parse(pat, p), s, was))
    ensures now == was
    ensures r.Matched? ==> BalancedFrom(src, s, r.end, x, y)
    ensures !r.Matched? ==> r == NoMatch && forall e :: !BalancedFrom(src, s, e, x, y)
  {
    BalancedItem(pat, p, x, y);
    hide Parse, BalancedFrom, CapsOk;
    BalancedMatches(src, x, y, s, was);
  }

  lemma BalancedMatches(src: string, x: char, y: char, s: nat, was: seq<Capture>)
    requires s <= |src| && CapsOk(was, s) && x != '\0' && x != y
    ensures var outs := Matches(src, [Balanced(x, y)], s, was);
      && (outs == [] ==> forall e :: !BalancedFrom(src, s, e, x, y))
      && (outs != [] ==> outs[0].Success? && outs[0].caps == was && BalancedFrom(src, s, outs[0].end, x, y))
  {
    assert [Balanced(x, y)][1..] == [];
    if s < |src| && src[s] == x {
      var e := BalanceEnd(src, s + 1, 1, x, y);
      forall e': nat
        ensures BalancedFrom(src, s, e', x, y) <==> e == e'
      {
        if s + 1 < e' <= |src| {
          BalanceTo(src, s + 1, e', 1, x, y);
        }
      }
      hide BalanceEnd, BalancedFrom;
      if e != -1 {
        CapsLater(was, s);
        NothingLeft(src, e, was);
      }
    }
  }

  /** A frontier: the character starts here. */
  lemma FrontierText(src: string, pat: string, p: nat, c: char, s: nat, was: seq<Capture>, r: Result,
      now: seq<Capture>)
    requires p <= |pat| && pat[..p] + ("%f" + ("[" + ([c] + "]"))) == pat && PlainMembers([c])
    requires s <= |src| && CapsOk(was, s) && Agrees(r, was, now, Matches(src, Parse(pat, p), s, was))
    ensures now == was
    ensures r == if (s == 0 || src[s - 1] != c) && s < |src| && src[s] == c then Matched(s) else NoMatch
  {
    var of := FrontierItem(pat, p, c);
    hide Parse, CapsOk, CharSet.Has;
    FrontierMatches(src, of, s, was);
    assert AtFrontier(src, s, of) <==> (s == 0 || src[s - 1] != c) && s < |src| && src[s] == c;
  }

  lemma FrontierMatches(src: string, of: CharSet, s: nat, was: seq<Capture>)
    requires s <= |src| && CapsOk(was, s)
    ensures Matches(src, [Frontier(of)], s, was) == if AtFrontier(src, s, of) then [Success(s, was)] else []
  {
    assert [Frontier(of)][1..] == [];
    NothingLeft(src, s, was);
  }

  lemma BalancedItem(pat: string, p: nat, x: char, y: char)
    requires p <= |pat| && pat[..p] + ("%b" + [x, y]) == pat && x != '\0' && y != '\0'
    ensures Parse(pat, p) == [Balanced(x, y)]
  {
    TailAt(pat, p, "%b", [x, y]);
    HasNth(pat, p, "%b", 0);
    HasNth(pat, p, "%b", 1);
    HasNth(pat, p + 2, [x, y], 0);
    HasNth(pat, p + 2, [x, y], 1);
    assert Parse(pat, |pat|) == [];
    assert Parse(pat, p) == ParseEscape(pat, p);
  }

  lemma FrontierItem(pat: string, p: nat, c: char) returns (of: CharSet)
    requires p <= |pat| && pat[..p] + ("%f" + ("[" + ([c] + "]"))) == pat && PlainMembers([c])
    ensures Parse(pat, p) == [Frontier(of)] && c != '\0' && forall x :: of.Has(x) <==> x == c
  {
    TailAt(pat, p, "%f", "[" + ([c] + "]"));
    HasNth(pat, p, "%f", 0);
    HasNth(pat, p, "%f", 1);
    HasSplit(pat, p + 2, "[", [c] + "]");
    HasNth(pat, p + 2, "[", 0);
    HasNth(pat, p + 3, [c] + "]", 0);
    assert c != '\0' && c != '^' by {
      assert [c][0] == c;
    }
    MembersEnd(pat, p + 3, [c]);
    of := BracketAt(pat, p + 2, |pat| - 1);
    assert ClassEnd(pat, p + 2) == End(|pat|);
    assert Parse(pat, |pat|) == [];
    assert Parse(pat, p) == ParseEscape(pat, p);
    forall x
      ensures of.Has(x) <==> x == c
    {
      MembersAre(pat, p + 3, [c], x);
    }
  }

  // ----- malformed patterns -----

  lemma Malformations(src: string, pat: string, p: nat, s: nat, r: Result, now: seq<Capture>)
    requires p < |pat| && s <= |src| && Agrees(r, [], now, Matches(src, Parse(pat, p), s, []))
    ensures p + 1 == |pat| && pat[p] == '%' ==> r == Error("malformed pattern (ends with '%')")
    ensures p + 1 == |pat| && pat[p] == '[' ==> r == Error("malformed pattern (missing ']')")
    ensures p + 2 == |pat| && pat[p] == '%' && pat[p + 1] == 'b' ==> r == Error("unbalanced pattern")
    ensures p + 2 == |pat| && pat[p] == '%' && pat[p + 1] == 'f' ==>
      r == Error("missing '[' after '%f' in pattern")
    ensures pat[p] == ')' ==> r == Error("invalid pattern capture")
    ensures p + 1 < |pat| && pat[p] == '%' && '0' <= pat[p + 1] <= '9' ==> r == Error("invalid capture index")
  {
    OddItems(pat, p);
  }

  lemma OddItems(pat: string, p: nat)
    requires p < |pat|
    ensures p + 1 == |pat| && pat[p] == '%' ==> Parse(pat, p) == [Malformed("malformed pattern (ends with '%')")]
    ensures p + 1 == |pat| && pat[p] == '[' ==> Parse(pat, p) == [Malformed("malformed pattern (missing ']')")]
    ensures p + 2 == |pat| && pat[p] == '%' && pat[p + 1] == 'b' ==> Parse(pat, p) == [Malformed("unbalanced pattern")]
    ensures p + 2 == |pat| && pat[p] == '%' && pat[p + 1] == 'f' ==>
      Parse(pat, p) == [Malformed("missing '[' after '%f' in pattern")]
    ensures pat[p] == ')' ==> Parse(pat, p) == [Close] + Parse(pat, p + 1)
    ensures p + 1 < |pat| && pat[p] == '%' && '0' <= pat[p + 1] <= '9' ==>
      Parse(pat, p) == [Back(pat[p + 1] as int - '1' as int)] + Parse(pat, p + 2)
  {
    if pat[p] == '%' {
      assert Parse(pat, p) == ParseEscape(pat, p);
      if p + 1 == |pat| {
        assert ParseEscape(pat, p) == ParseChars(pat, p);
      }
    } else if p + 1 == |pat| && pat[p] == '[' {
      assert BracketEnd(pat, p + 1).Bad? && Parse(pat, p) == ParseChars(pat, p);
    }
  }

  // ----- replacing characters -----

  /** `src` with its first `left` characters `c` replaced, and their number. */
  function ReplaceChars(src: string, c: char, with: string, left: nat): (string, nat) {
    if src == "" then ("", 0)
    else if src[0] == c && left > 0 then
      var (t, n) := ReplaceChars(src[1..], c, with, left - 1);
      (with + t, n + 1)
    else
      var (t, n) := ReplaceChars(src[1..], c, with, left);
      ([src[0]] + t, n)
  }

  /** Replacing a character that has no meaning of its own. */
  lemma {:induction false} ReplaceOne(src: string, pat: string, s: nat, left: nat, repl: (string, seq<Capture>) -> string)
    requires |pat| == 1 && ClassText(pat) && pat != "." && pat != "$" && s <= |src|
    ensures Replaced(src, Parse(pat, 0), s, left, false, repl)
      == var (t, n) := ReplaceChars(src[s..], pat[0], repl(pat, []), left); Done(t, n)
    decreases |src| - s
  {
    var outs := Matches(src, Parse(pat, 0), s, []);
    ReplacedAt(src, pat, s);
    hide Matches, Parse;
    if left == 0 {
      ReplaceNone(src[s..], pat[0], repl(pat, []));
    } else if s < |src| {
      assert src[s..][1..] == src[s + 1..];
      assert src[s..s + 1] == [src[s]];
      ReplaceOne(src, pat, s + 1, left, repl);
      ReplaceOne(src, pat, s + 1, left - 1, repl);
      if src[s] == pat[0] {
        assert src[s..s + 1] == pat;
      } else {
        assert "" + [src[s]] == [src[s]];
      }
    }
  }

  /** `with` before every character of `src`, and at its end. */
  function Interleaved(src: string, with: string): string {
    if src == "" then with else with + [src[0]] + Interleaved(src[1..], with)
  }

  /** The empty pattern matches before each character and at the end. */
  lemma {:induction false} ReplaceEmpty(src: string, s: nat, left: nat, repl: (string, seq<Capture>) -> string)
    requires s <= |src| && left > |src| - s
    ensures Replaced(src, Parse("", 0), s, left, false, repl)
      == Done(Interleaved(src[s..], repl("", [])), |src| - s + 1)
    decreases |src| - s
  {
    NothingLeft(src, s, []);
    assert Parse("", 0) == [];
    assert src[s..s] == "";
    if s < |src| {
      ReplaceEmpty(src, s + 1, left - 1, repl);
      assert src[s..][1..] == src[s + 1..];
    }
  }

  /** With an anchor there is one attempt, at the start. */
  lemma ReplaceAnchored(src: string, items: seq<Item>, left: nat, repl: (string, seq<Capture>) -> string)
    requires left > 0
    ensures Matches(src, items, 0, []) == [] ==> Replaced(src, items, 0, left, true, repl) == Done(src, 0)
    ensures Matches(src, items, 0, []) != [] && Matches(src, items, 0, [])[0].Success? ==>
      var o := Matches(src, items, 0, [])[0];
      o.end <= |src| && Replaced(src, items, 0, left, true, repl) == Done(repl(src[..o.end], o.caps) + src[o.end..], 1)
  {
    var outs := Matches(src, items, 0, []);
    OutcomesInside(src, items, 0, []);
    if outs == [] {
      if src != "" {
        assert [src[0]] + src[1..] == src;
        assert "" + [src[0]] == [src[0]];
      }
    } else if outs[0].Success? {
      assert Inside(outs[0], src, 0);
      assert src[0..outs[0].end] == src[..outs[0].end];
      if outs[0].end == 0 && src != "" {
        var text := repl(src[..0], outs[0].caps);
        assert text + [src[0]] + src[1..] == text + src[0..];
      } else if src == "" {
        assert src[0..] == "";
      }
    }
  }

  lemma ReplacedAt(src: string, pat: string, s: nat)
    requires |pat| == 1 && ClassText(pat) && pat != "." && pat != "$" && s <= |src|
    ensures Matches(src, Parse(pat, 0), s, []) == if s < |src| && src[s] == pat[0] then [Success(s + 1, [])] else []
  {
    assert HasAt(pat, 0, pat);
    ClassParsed(pat, 0, pat);
    var of := SetAt(pat, 0, 1);
    assert Parse(pat, |pat|) == [];
    assert Parse(pat, 0) == [Chars(of, Once)];
    LastItem(src, of, Once, s, []);
    if s < |src| {
      assert of.Has(src[s]) <==> ClassHas(pat, src[s]);
    }
  }

  lemma {:induction false} ReplaceNone(src: string, c: char, with: string)
    ensures ReplaceChars(src, c, with, 0) == (src, 0)
    decreases |src|
  {
    if src != "" {
      ReplaceNone(src[1..], c, with);
      assert [src[0]] + src[1..] == src;
    }
  }
}
