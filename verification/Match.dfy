/** The pattern matcher of lstrlib.c. */
module Match {
  import opened Texts
  import opened Patterns

  datatype Result = Matched(end: nat) | NoMatch | Error(message: string)

  /** A search returns its first outcome; a failed one leaves the captures as
      they were. */
  ghost predicate Agrees(r: Result, was: seq<Capture>, now: seq<Capture>, outs: seq<Outcome>) {
    true <==> (
      if outs == [] then r == NoMatch && now == was
      else IsFirst(r, now, outs[0])
    )
  }

  predicate IsFirst(r: Result, now: seq<Capture>, first: Outcome) {
    if first.Success? then r == Matched(first.end) && now == first.caps else r == Error(first.message)
  }

  lemma AgreesCases(r: Result, was: seq<Capture>, now: seq<Capture>, outs: seq<Outcome>)
    requires Agrees(r, was, now, outs)
    ensures r == NoMatch <==> outs == []
    ensures r == NoMatch ==> now == was
  {
  }

  /** What follows the first outcome does not matter. */
  lemma AgreesMore(r: Result, was: seq<Capture>, now: seq<Capture>, outs: seq<Outcome>, more: seq<Outcome>)
    requires Agrees(r, was, now, outs) && outs != []
    ensures Agrees(r, was, now, outs + more)
  {
  }

  /** All repetitions longer than `i` have failed. */
  ghost predicate Tried(src: string, of: CharSet, rest: seq<Item>, s: nat, i: int, caps: seq<Capture>)
    requires s <= |src| && CapsOk(caps, s)
  {
    true <==> (
      && -1 <= i && s + i <= |src|
      && (forall k :: s <= k < s + i ==> TakesAt(src, k, of))
      && (if i == -1 then Greedy(src, of, rest, s, caps) == []
          else CapsOk(caps, s + i) && Greedy(src, of, rest, s + i, caps) == Matches(src, rest, s + i, caps))
    )
  }

  lemma TriedStart(src: string, of: CharSet, rest: seq<Item>, s: nat, i: nat, caps: seq<Capture>)
    requires s + i <= |src| && CapsOk(caps, s) && !TakesAt(src, s + i, of)
    requires forall k :: s <= k < s + i ==> TakesAt(src, k, of)
    ensures Tried(src, of, rest, s, i, caps)
  {
    CapsLater(caps, s);
    GreedyEnd(src, of, rest, s + i, caps);
  }

  lemma TriedFacts(src: string, of: CharSet, rest: seq<Item>, s: nat, i: nat, caps: seq<Capture>)
    requires s <= |src| && CapsOk(caps, s) && Tried(src, of, rest, s, i, caps)
    ensures s + i <= |src| && CapsOk(caps, s + i)
  {
  }

  lemma TriedNext(src: string, of: CharSet, rest: seq<Item>, s: nat, i: nat, caps: seq<Capture>)
    requires s + i <= |src| && CapsOk(caps, s) && CapsOk(caps, s + i) && Tried(src, of, rest, s, i, caps)
    requires Matches(src, rest, s + i, caps) == []
    ensures Tried(src, of, rest, s, i - 1, caps)
  {
    if i > 0 {
      CapsLater(caps, s);
      GreedyLess(src, of, rest, s + i - 1, caps);
    }
  }

  lemma TriedAll(src: string, of: CharSet, rest: seq<Item>, s: nat, caps: seq<Capture>)
    requires s <= |src| && CapsOk(caps, s) && Tried(src, of, rest, s, -1, caps)
    ensures Agrees(NoMatch, caps, caps, Greedy(src, of, rest, s, caps))
  {
  }

  /** The first of the longest matches that is one ends the search. */
  lemma GreedyReturns(r: Result, now: seq<Capture>, src: string, of: CharSet, rest: seq<Item>, s: nat, i: nat,
      caps: seq<Capture>)
    requires s + i <= |src| && CapsOk(caps, s) && CapsOk(caps, s + i) && Tried(src, of, rest, s, i, caps)
    requires r != NoMatch && Agrees(r, caps, now, Matches(src, rest, s + i, caps))
    ensures Agrees(r, caps, now, Greedy(src, of, rest, s, caps))
  {
    hide Matches, Greedy, TakesAt, CapsOk;
    AgreesCases(r, caps, now, Matches(src, rest, s + i, caps));
    var more := GreedyFirst(src, of, rest, s, i, caps);
    AgreesMore(r, caps, now, Matches(src, rest, s + i, caps), more);
  }

  lemma LazyReturns(r: Result, now: seq<Capture>, src: string, of: CharSet, rest: seq<Item>, s: nat, caps: seq<Capture>)
    requires s <= |src| && CapsOk(caps, s)
    requires r != NoMatch && Agrees(r, caps, now, Matches(src, rest, s, caps))
    ensures Agrees(r, caps, now, Lazy(src, of, rest, s, caps))
  {
    var more := LazyNext(src, of, rest, s, caps);
    AgreesCases(r, caps, now, Matches(src, rest, s, caps));
    AgreesMore(r, caps, now, Matches(src, rest, s, caps), more);
  }

  /** One more repetition is tried when the rest does not match here. */
  lemma LazyGoesOn(src: string, of: CharSet, rest: seq<Item>, s: nat, caps: seq<Capture>)
    requires s <= |src| && CapsOk(caps, s) && Matches(src, rest, s, caps) == []
    ensures TakesAt(src, s, of) ==> s < |src| && CapsOk(caps, s + 1)
    ensures TakesAt(src, s, of) ==> Lazy(src, of, rest, s, caps) == Lazy(src, of, rest, s + 1, caps)
    ensures !TakesAt(src, s, of) ==> Agrees(NoMatch, caps, caps, Lazy(src, of, rest, s, caps))
  {
    CapsLater(caps, s);
    var more := LazyNext(src, of, rest, s, caps);
  }

  class MatchState {
    const src: string
    const pat: string
    var level: nat
    const capture: array<Capture>

    constructor (src: string, pat: string)
      ensures this.src == src && this.pat == pat && level == 0 && Valid() && fresh(capture)
    {
      this.src, this.pat, level := src, pat, 0;
      capture := new Capture[MAXCAPTURES](_ => Capture(0, 0));
    }

    ghost predicate Valid()
      reads this
    {
      capture.Length == MAXCAPTURES && level <= MAXCAPTURES
    }

    /** The captures in use. */
    ghost function Caps(): (caps: seq<Capture>)
      requires Valid()
      reads this, capture
    {
      capture[..level]
    }

    // ----- character classes -----

    /** classend. */
    method FindClassEnd(p0: nat) returns (r: EndOf)
      requires p0 < |pat|
      ensures r == ClassEnd(pat, p0)
    {
      var p := p0 + 1;
      if pat[p0] == L_ESC {
        if At(pat, p) == '\0' {
          return Bad("malformed pattern (ends with '%')");
        }
        return End(p + 1);
      } else if pat[p0] == '[' {
        if At(pat, p) == '^' {
          p := p + 1;
        }
        while true
          invariant p <= |pat| && ClassEnd(pat, p0) == BracketEnd(pat, p)
          decreases |pat| - p
        {
          if At(pat, p) == '\0' {
            return Bad(NO_BRACKET);
          }
          var c := At(pat, p);
          p := p + 1;
          if c == L_ESC && At(pat, p) != '\0' {
            p := p + 1;
          }
          if At(pat, p) == ']' {
            return End(p + 1);
          }
        }
      } else {
        return End(p);
      }
    }

    /** matchbracketclass. */
    method MatchBracketClass(c: char, p0: nat, ec: nat) returns (res: bool)
      ensures res == BracketAt(pat, p0, ec).Has(c)
    {
      var sig, p := true, p0;
      if At(pat, p + 1) == '^' {
        sig := false;
        p := p + 1;
      }
      p := p + 1;
      var in1 := MatchMembers(c, p, ec);
      return if in1 then sig else !sig;
    }

    /** The loop of matchbracketclass. */
    method MatchMembers(c: char, p0: nat, ec: nat) returns (res: bool)
      ensures res <==> HasMember(MembersAt(pat, p0, ec), c)
    {
      var p := p0;
      while p < ec
        invariant HasMember(MembersAt(pat, p0, ec), c) <==> HasMember(MembersAt(pat, p, ec), c)
        decreases ec - p
      {
        MemberFirst(MembersAt(pat, p, ec), c);
        if At(pat, p) == L_ESC {
          p := p + 1;
          if MatchClass(c, At(pat, p)) {
            return true;
          }
        } else if At(pat, p + 1) == '-' && p + 2 < ec {
          p := p + 2;
          if At(pat, p - 2) <= c <= At(pat, p) {
            return true;
          }
        } else if At(pat, p) == c {
          return true;
        }
        p := p + 1;
      }
      return false;
    }

    /** singlematch, where a subject character is left. */
    method SingleMatch(s: nat, p: nat, ep: nat) returns (m: bool)
      requires p < |pat| && ep > 0
      ensures m == TakesAt(src, s, SetAt(pat, p, ep))
    {
      if s >= |src| {
        return false;
      }
      var c := pat[p];
      if c == '.' {
        return true;
      } else if c == L_ESC {
        ghost var set1 := SetAt(pat, p, ep);
        assert set1.members[0] == Letter(At(pat, p + 1));
        return MatchClass(src[s], At(pat, p + 1));
      } else if c == '[' {
        m := MatchBracketClass(src[s], p, ep - 1);
      } else {
        ghost var set1 := SetAt(pat, p, ep);
        assert set1.members[0] == One(c);
        return c == src[s];
      }
    }

    // ----- captures -----

    /** check_capture, for the capture that a digit names. */
    method CheckCapture(i: int) returns (ok: bool)
      requires Valid()
      ensures ok <==> 0 <= i < |Caps()| && Caps()[i].len != CAP_UNFINISHED
    {
      return !(i < 0 || i >= level || capture[i].len == CAP_UNFINISHED);
    }

    /** capture_to_close. */
    method CaptureToClose() returns (l: int)
      requires Valid()
      ensures l == LastOpen(Caps(), |Caps()|)
    {
      l := level - 1;
      while l >= 0
        invariant -1 <= l < level
        invariant LastOpen(Caps(), |Caps()|) == LastOpen(Caps(), l + 1)
      {
        if capture[l].len == CAP_UNFINISHED {
          return;
        }
        l := l - 1;
      }
    }

    /** start_capture. */
    method StartCapture(s: nat, p: nat, what: int) returns (r: Result)
      requires Valid() && s <= |src| && p <= |pat| && CapsOk(Caps(), s)
        && (what == CAP_POSITION || what == CAP_UNFINISHED)
      modifies `level, capture
      ensures Valid() && (
        if old(level) == MAXCAPTURES then r == Error("too many captures")
        else Agrees(r, old(Caps()), Caps(), Matches(src, Parse(pat, p), s, old(Caps()) + [Capture(s, what)])))
      decreases |pat| - p, 5
    {
      if level >= MAXCAPTURES {
        return Error("too many captures");
      }
      ghost var was := Caps();
      capture[level] := Capture(s, what);
      level := level + 1;
      assert Caps() == was + [Capture(s, what)];
      r := Match(s, p);
      ghost var now := Caps();
      if r == NoMatch {
        AgreesCases(r, was + [Capture(s, what)], now, Matches(src, Parse(pat, p), s, was + [Capture(s, what)]));
        level := level - 1;
        assert Caps() == was;
      }
    }

    /** end_capture. */
    method EndCapture(s: nat, p: nat) returns (r: Result)
      requires Valid() && s <= |src| && p <= |pat| && CapsOk(Caps(), s)
      modifies `level, capture
      ensures Valid()
      ensures old(LastOpen(Caps(), |Caps()|)) == -1 ==> r == Error("invalid pattern capture")
      ensures old(LastOpen(Caps(), |Caps()|)) != -1 ==>
        Agrees(r, old(Caps()), Caps(), Matches(src, Parse(pat, p), s, Closed(old(Caps()), s)))
      decreases |pat| - p, 5
    {
      var l := CaptureToClose();
      if l == -1 {
        return Error("invalid pattern capture");
      }
      ghost var was := Caps();
      var c := capture[l];
      capture[l] := Capture(c.init, s - c.init);
      assert Caps() == Closed(was, s);
      r := Match(s, p);
      ghost var now := Caps();
      if r == NoMatch {
        AgreesCases(r, Closed(was, s), now, Matches(src, Parse(pat, p), s, Closed(was, s)));
        capture[l] := Capture(capture[l].init, CAP_UNFINISHED);
        assert Caps() == was;
      }
    }

    /** match_capture. */
    method MatchCapture(s: nat, i: int) returns (r: Result)
      requires Valid() && s <= |src| && CapsOk(Caps(), s)
      ensures 0 <= i < |Caps()| && Caps()[i].len != CAP_UNFINISHED ==>
        r == if Caps()[i].len != CAP_POSITION && Repeats(src, s, Caps()[i]) then Matched(s + Caps()[i].len) else NoMatch
      ensures !(0 <= i < |Caps()| && Caps()[i].len != CAP_UNFINISHED) ==> r == Error("invalid capture index")
    {
      var ok := CheckCapture(i);
      if !ok {
        return Error("invalid capture index");
      }
      var c := capture[i];
      assert CapOk(Caps()[i], s);
      // the length of a position capture, as a size, is longer than any subject
      if c.len >= 0 && |src| - s >= c.len && src[c.init..c.init + c.len] == src[s..s + c.len] {
        return Matched(s + c.len);
      }
      return NoMatch;
    }

    /** matchbalance. */
    method MatchBalance(s0: nat, p: nat) returns (r: int)
      requires s0 <= |src| && At(pat, p) != '\0' && At(pat, p + 1) != '\0'
      ensures At(src, s0) != At(pat, p) ==> r == -1
      ensures At(src, s0) == At(pat, p) ==> r == BalanceEnd(src, s0 + 1, 1, At(pat, p), At(pat, p + 1))
    {
      if At(src, s0) != At(pat, p) {
        return -1;
      }
      var b, e, cont, s := At(pat, p), At(pat, p + 1), 1, s0 + 1;
      while s < |src|
        invariant cont > 0
        invariant BalanceEnd(src, s0 + 1, 1, b, e) == BalanceEnd(src, s, cont, b, e)
        decreases |src| - s
      {
        if src[s] == e {
          cont := cont - 1;
          if cont == 0 {
            return s + 1;
          }
        } else if src[s] == b {
          cont := cont + 1;
        }
        s := s + 1;
      }
      return -1;
    }

    // ----- repetitions -----

    /** The count in max_expand: as many characters as the class takes. */
    method CountMax(s: nat, p: nat, ep: nat) returns (i: nat)
      requires s <= |src| && p < |pat| && ep > 0
      ensures s + i <= |src| && !TakesAt(src, s + i, SetAt(pat, p, ep))
      ensures forall k :: s <= k < s + i ==> TakesAt(src, k, SetAt(pat, p, ep))
    {
      i := 0;
      while true
        invariant s + i <= |src|
        invariant forall k :: s <= k < s + i ==> TakesAt(src, k, SetAt(pat, p, ep))
        decreases |src| - s - i
      {
        var m := SingleMatch(s + i, p, ep);
        if !m {
          return;
        }
        i := i + 1;
      }
    }

    /** max_expand. */
    method MaxExpand(s: nat, p: nat, ep: nat) returns (r: Result)
      requires Valid() && s <= |src| && CapsOk(Caps(), s) && p < |pat| && p < ep < |pat|
      modifies `level, capture
      ensures Valid()
        && Agrees(r, old(Caps()), Caps(), Greedy(src, SetAt(pat, p, ep), Parse(pat, ep + 1), s, old(Caps())))
      decreases |pat| - p, 0
    {
      ghost var of, rest, caps := SetAt(pat, p, ep), Parse(pat, ep + 1), Caps();
      var i: int := CountMax(s, p, ep);
      TriedStart(src, of, rest, s, i, caps);
      hide *;
      while i >= 0
        invariant -1 <= i && Valid() && Caps() == caps && Tried(src, of, rest, s, i, caps)
      {
        TriedFacts(src, of, rest, s, i, caps);
        r := Match(s + i, ep + 1);
        if r != NoMatch {
          GreedyReturns(r, Caps(), src, of, rest, s, i, caps);
          return;
        }
        AgreesCases(r, caps, Caps(), Matches(src, rest, s + i, caps));
        TriedNext(src, of, rest, s, i, caps);
        i := i - 1;
      }
      TriedAll(src, of, rest, s, caps);
      return NoMatch;
    }

    /** min_expand. */
    method MinExpand(s0: nat, p: nat, ep: nat) returns (r: Result)
      requires Valid() && s0 <= |src| && CapsOk(Caps(), s0) && p < |pat| && p < ep < |pat|
      modifies `level, capture
      ensures Valid()
        && Agrees(r, old(Caps()), Caps(), Lazy(src, SetAt(pat, p, ep), Parse(pat, ep + 1), s0, old(Caps())))
      decreases |pat| - p, 0
    {
      ghost var of, rest, caps := SetAt(pat, p, ep), Parse(pat, ep + 1), Caps();
      var s := s0;
      hide *;
      while true
        invariant s0 <= s <= |src| && Valid() && Caps() == caps && CapsOk(caps, s)
        invariant Lazy(src, of, rest, s0, caps) == Lazy(src, of, rest, s, caps)
        decreases |src| - s
      {
        r := Match(s, ep + 1);
        if r != NoMatch {
          LazyReturns(r, Caps(), src, of, rest, s, caps);
          return;
        }
        AgreesCases(r, caps, Caps(), Matches(src, rest, s, caps));
        LazyGoesOn(src, of, rest, s, caps);
        var m := SingleMatch(s, p, ep);
        if !m {
          return NoMatch;
        }
        s := s + 1;
      }
    }

    // ----- match -----

    /** Whether the loop of match goes on, at (s1, p1), or has its result. */
    ghost predicate Goes(go: bool, s1: nat, p1: nat, r: Result, was: seq<Capture>, s: nat, p: nat)
      requires Valid() && s <= |src| && p <= |pat| && CapsOk(was, s)
      reads this, capture
    {
      var outs := Matches(src, Parse(pat, p), s, was);
      if go then
        s <= s1 <= |src| && p < p1 <= |pat| && Caps() == was && CapsOk(was, s1) && Matches(src, Parse(pat, p1), s1, was) == outs
      else Agrees(r, was, Caps(), outs)
    }

    /** The default case: a character class with its repetition. */
    method MatchChars(s: nat, p: nat) returns (go: bool, s1: nat, p1: nat, r: Result)
      requires Valid() && s <= |src| && p < |pat| && CapsOk(Caps(), s) && Parse(pat, p) == ParseChars(pat, p)
      modifies `level, capture
      ensures Valid() && Goes(go, s1, p1, r, old(Caps()), s, p)
      decreases |pat| - p, 1
    {
      go, s1, p1, r := false, s, p, NoMatch;
      var end := FindClassEnd(p);
      if end.Bad? {
        return false, s, p, Error(end.message);
      }
      var ep := end.p;
      var m := SingleMatch(s, p, ep);
      ghost var of, was, repeat := SetAt(pat, p, ep), Caps(), RepeatAt(pat, ep);
      ghost var rest := Parse(pat, if repeat == Once then ep else ep + 1);
      assert Parse(pat, p) == [Chars(of, repeat)] + rest;
      assert Parse(pat, p)[1..] == rest;
      var c := At(pat, ep);
      if c == '?' {
        if m {
          r := Match(s + 1, ep + 1);
          AgreesCases(r, was, Caps(), Matches(src, rest, s + 1, was));
          if r != NoMatch {
            AgreesMore(r, was, Caps(), Matches(src, rest, s + 1, was), Matches(src, rest, s, was));
            return false, s, p, r;
          }
        }
        return true, s, ep + 1, NoMatch;
      } else if c == '*' {
        r := MaxExpand(s, p, ep);
      } else if c == '+' {
        if m {
          r := MaxExpand(s + 1, p, ep);
        }
      } else if c == '-' {
        r := MinExpand(s, p, ep);
      } else if m {
        return true, s + 1, ep, NoMatch;
      }
    }

    /** The frontier case. */
    method MatchFrontier(s: nat, p: nat) returns (go: bool, s1: nat, p1: nat, r: Result)
      requires Valid() && s <= |src| && p < |pat| && CapsOk(Caps(), s) && pat[p] == L_ESC && At(pat, p + 1) == 'f'
      ensures Goes(go, s1, p1, r, Caps(), s, p)
    {
      if At(pat, p + 2) != '[' {
        return false, s, p, Error("missing '[' after '%f' in pattern");
      }
      var end := FindClassEnd(p + 2);
      if end.Bad? {
        return false, s, p, Error(end.message);
      }
      var previous := if s == 0 then '\0' else src[s - 1];
      var before := MatchBracketClass(previous, p + 2, end.p - 1);
      var after := MatchBracketClass(At(src, s), p + 2, end.p - 1);
      assert Parse(pat, p)[1..] == Parse(pat, end.p);
      return !before && after, s, end.p, NoMatch;
    }

    /** The cases that start with an escape. */
    method MatchEscape(s: nat, p: nat) returns (go: bool, s1: nat, p1: nat, r: Result)
      requires Valid() && s <= |src| && p < |pat| && CapsOk(Caps(), s) && pat[p] == L_ESC
      modifies `level, capture
      ensures Valid() && Goes(go, s1, p1, r, old(Caps()), s, p)
      decreases |pat| - p, 2
    {
      go, s1, p1, r := false, s, p, NoMatch;
      var c := At(pat, p + 1);
      ghost var items := Parse(pat, p);
      if c == 'b' {
        if At(pat, p + 2) == '\0' || At(pat, p + 3) == '\0' {
          return false, s, p, Error("unbalanced pattern");
        }
        var e := MatchBalance(s, p + 2);
        assert items[1..] == Parse(pat, p + 4);
        if e != -1 {
          return true, e, p + 4, NoMatch;
        }
      } else if c == 'f' {
        go, s1, p1, r := MatchFrontier(s, p);
      } else if IsDigit(c) {
        r := MatchCapture(s, c as int - '1' as int);
        assert items[1..] == Parse(pat, p + 2);
        if r.Matched? {
          return true, r.end, p + 2, NoMatch;
        }
      } else {
        go, s1, p1, r := MatchChars(s, p);
      }
    }

    /** match: the first outcome of the search, or none. */
    method Match(s0: nat, p0: nat) returns (r: Result)
      requires Valid() && s0 <= |src| && p0 <= |pat| && CapsOk(Caps(), s0)
      modifies `level, capture
      ensures Valid() && Agrees(r, old(Caps()), Caps(), Matches(src, Parse(pat, p0), s0, old(Caps())))
      decreases |pat| - p0, 4
    {
      var s: nat, p: nat, go := s0, p0, true;
      ghost var caps := Caps();
      r := NoMatch;
      while go
        invariant Valid() && (go ==> s <= |src| && p0 <= p <= |pat| && Caps() == caps && CapsOk(caps, s))
        invariant go ==> Matches(src, Parse(pat, p), s, caps) == Matches(src, Parse(pat, p0), s0, caps)
        invariant !go ==> Agrees(r, caps, Caps(), Matches(src, Parse(pat, p0), s0, caps))
        decreases if go then |pat| - p + 1 else 0
      {
        go, s, p, r := Step(s, p);
      }
    }

    /** One round of the loop of match. */
    method Step(s: nat, p: nat) returns (go: bool, s1: nat, p1: nat, r: Result)
      requires Valid() && s <= |src| && p <= |pat| && CapsOk(Caps(), s)
      modifies `level, capture
      ensures Valid() && Goes(go, s1, p1, r, old(Caps()), s, p)
      decreases |pat| - p, 3
    {
      go, s1, p1, r := false, s, p, NoMatch;
      var c := At(pat, p);
      ghost var items := Parse(pat, p);
      if c == '(' {
        if At(pat, p + 1) == ')' {
          assert items[1..] == Parse(pat, p + 2);
          r := StartCapture(s, p + 2, CAP_POSITION);
        } else {
          assert items[1..] == Parse(pat, p + 1);
          r := StartCapture(s, p + 1, CAP_UNFINISHED);
        }
      } else if c == ')' {
        assert items[1..] == Parse(pat, p + 1);
        r := EndCapture(s, p + 1);
      } else if c == L_ESC {
        go, s1, p1, r := MatchEscape(s, p);
      } else if c == '\0' {
        return false, s, p, Matched(s);
      } else if c == '$' && At(pat, p + 1) == '\0' {
        assert items[1..] == [];
        if s == |src| {
          r := Matched(s);
        }
      } else {
        go, s1, p1, r := MatchChars(s, p);
      }
    }

    // ----- searching -----

    /** The loop of str_find_aux: the first position where the search has an
        outcome; with an anchor only `init` is tried. */
    method Find(init: nat, p: nat, anchor: bool) returns (s1: nat, r: Result)
      requires Valid() && init <= |src| && p <= |pat|
      modifies `level, capture
      ensures Valid() && init <= s1 <= |src|
      ensures forall k :: init <= k < s1 ==> Matches(src, Parse(pat, p), k, []) == []
      ensures Agrees(r, [], Caps(), Matches(src, Parse(pat, p), s1, []))
      ensures (anchor ==> s1 == init) && (r == NoMatch && !anchor ==> s1 == |src|)
    {
      s1 := init;
      while true
        invariant Valid() && init <= s1 <= |src|
        invariant forall k :: init <= k < s1 ==> Matches(src, Parse(pat, p), k, []) == []
        invariant anchor ==> s1 == init
        decreases |src| - s1
      {
        level := 0;
        assert Caps() == [];
        r := Match(s1, p);
        if r != NoMatch || s1 == |src| || anchor {
          return;
        }
        s1 := s1 + 1;
      }
    }

    /** The loop of str_gsub, for a replacement that depends on the text of the
        match and the captures. */
    method Gsub(p: nat, anchor: bool, maxS: nat, repl: (string, seq<Capture>) -> string) returns (r: Replacement)
      requires Valid() && p <= |pat|
      modifies `level, capture
      ensures Valid() && r == Replaced(src, Parse(pat, p), 0, maxS, anchor, repl)
    {
      hide Replaced, ReplacedRest, Matches, Parse, Agrees, AllInside, IsFirst, Replacement.After;
      var s: nat, n: nat, b := 0, 0, "";
      ghost var items := Parse(pat, p);
      ghost var all := Replaced(src, items, 0, maxS, anchor, repl);
      NothingBefore(all);
      while n < maxS
        invariant Valid() && s <= |src| && n <= maxS
        invariant all == Replaced(src, items, s, maxS - n, anchor, repl).After(b, n)
        decreases |src| - s
      {
        ghost var outs, n0 := Matches(src, items, s, []), n;
        var e, add := ReplaceAt(s, p, repl);
        if e.Error? {
          ReplacedFails(src, items, s, maxS - n, anchor, repl, b, n);
          return Fails(e.message);
        }
        if e.Matched? {
          n := n + 1;
        }
        OutcomesInside(src, items, s, []);
        ReplacedStep(src, items, s, maxS - n0, anchor, repl, outs, n - n0, add, b, n0);
        if e.Matched? && e.end > s {
          s := e.end;
        } else if s < |src| {
          add := add + [src[s]];
          s := s + 1;
        } else {
          return Done(b + add, n);
        }
        b := b + add;
        assert all == ReplacedRest(src, items, s, maxS - n, anchor, repl).After(b, n);
        RestIs(src, items, s, maxS - n, anchor, repl, b, n);
        if anchor {
          return Done(b + src[s..], n);
        }
      }
      RestIs(src, items, s, 0, anchor, repl, b, n);
      return Done(b + src[s..], n);
    }

    /** The match at `s`, if there is one, and what takes its place. */
    method ReplaceAt(s: nat, p: nat, repl: (string, seq<Capture>) -> string) returns (e: Result, add: string)
      requires Valid() && s <= |src| && p <= |pat|
      modifies `level, capture
      ensures Valid() && (e == NoMatch <==> Matches(src, Parse(pat, p), s, []) == [])
      ensures e == NoMatch ==> add == ""
      ensures e.Matched? ==> Matches(src, Parse(pat, p), s, [])[0].Success? && s <= e.end <= |src|
      ensures e.Matched? ==> e.end == Matches(src, Parse(pat, p), s, [])[0].end
      ensures e.Matched? ==> add == repl(src[s..e.end], Matches(src, Parse(pat, p), s, [])[0].caps)
      ensures e.Error? ==> Matches(src, Parse(pat, p), s, [])[0] == Failure(e.message)
    {
      add := "";
      e := MatchFirst(s, p);
      OutcomesInside(src, Parse(pat, p), s, []);
      if e.Matched? {
        assert Inside(Matches(src, Parse(pat, p), s, [])[0], src, s);
        add := repl(src[s..e.end], CaptureSeq());
      }
    }

    /** A search with no captures yet. */
    method MatchFirst(s: nat, p: nat) returns (r: Result)
      requires Valid() && s <= |src| && p <= |pat|
      modifies `level, capture
      ensures Valid() && (r == NoMatch <==> Matches(src, Parse(pat, p), s, []) == [])
      ensures Matches(src, Parse(pat, p), s, []) != [] ==> IsFirst(r, Caps(), Matches(src, Parse(pat, p), s, [])[0])
    {
      level := 0;
      assert Caps() == [];
      r := Match(s, p);
    }

    /** The captures as a value. */
    function CaptureSeq(): (caps: seq<Capture>)
      requires Valid()
      reads this, capture
      ensures caps == Caps()
    {
      capture[..level]
    }
  }
}
