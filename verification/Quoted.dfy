/** Strings written by `%q` in lstrlib.c and read back by the scanner of llex.c. */
module Quoted {
  import opened Wrappers
  import opened Texts
  import opened Limits

  // ----- addquoted -----

  function QuoteChar(c: char): string {
    if c == '\"' || c == '\\' || c == '\n' then ['\\', c]
    else if c == '\r' then "\\r"
    else if c == '\0' then "\\000"
    else [c]
  }

  function QuoteChars(s: string): string {
    if s == "" then "" else QuoteChars(s[..|s| - 1]) + QuoteChar(s[|s| - 1])
  }

  function Quote(s: string): string {
    "\"" + QuoteChars(s) + "\""
  }

  /** addquoted. */
  method AddQuoted(s: string) returns (b: string)
    ensures b == Quote(s)
  {
    b := "\"";
    for i := 0 to |s|
      invariant b == "\"" + QuoteChars(s[..i])
    {
      assert s[..i + 1][..i] == s[..i];
      var c := s[i];
      if c == '\"' || c == '\\' || c == '\n' {
        b := b + "\\" + [c];
      } else if c == '\r' {
        b := b + "\\r";
      } else if c == '\0' {
        b := b + "\\000";
      } else {
        b := b + [c];
      }
    }
    assert s[..|s|] == s;
    b := b + "\"";
  }

  // ----- read_string -----

  predicate IsDigit(c: char) { '0' <= c <= '9' }

  predicate IsNewline(c: char) { c == '\n' || c == '\r' }

  /** The string read, where reading goes on, and the line; or an error. */
  datatype Read = Got(s: string, next: nat, line: nat) | Bad(message: string) {
    function After(s: string): Read {
      if Bad? then this else Got(s + this.s, next, line)
    }
  }

  /** The character that a letter after a backslash stands for. */
  function EscapeLetter(c: char): Option<char> {
    if c == 'a' then Some('\U{7}')
    else if c == 'b' then Some('\U{8}')
    else if c == 'f' then Some('\U{c}')
    else if c == 'n' then Some('\n')
    else if c == 'r' then Some('\r')
    else if c == 't' then Some('\t')
    else if c == 'v' then Some('\U{b}')
    else None
  }

  /** inclinenumber: the position behind a line break of one or two characters. */
  function SkipNewline(text: string, p: nat): (q: nat)
    requires p < |text|
    ensures p < q <= |text|
  {
    if p + 1 < |text| && IsNewline(text[p + 1]) && text[p + 1] != text[p] then p + 2 else p + 1
  }

  /** Up to `n` digits. */
  function SkipDigits(text: string, p: nat, n: nat): (q: nat)
    requires p <= |text|
    ensures p <= q <= |text| && q <= p + n
    ensures n > 0 && p < |text| && IsDigit(text[p]) ==> q > p
    ensures forall i :: p <= i < q ==> IsDigit(text[i])
    decreases n
  {
    if n > 0 && p < |text| && IsDigit(text[p]) then SkipDigits(text, p + 1, n - 1) else p
  }

  function Decimal(s: string): nat
    requires forall i :: 0 <= i < |s| ==> IsDigit(s[i])
  {
    if s == "" then 0 else assert IsDigit(s[|s| - 1]); 10 * Decimal(s[..|s| - 1]) + (s[|s| - 1] as int - '0' as int)
  }

  predicate AllDigits(text: string, start: nat, p: nat)
    requires start <= p <= |text|
  {
    forall i :: start <= i < p ==> IsDigit(text[i])
  }

  lemma NoDigits(text: string, p: nat)
    requires p <= |text|
    ensures AllDigits(text, p, p)
  {
  }

  lemma DecimalFacts(text: string, start: nat, p: nat, n: nat)
    requires start <= p <= |text| && AllDigits(text, start, p)
    ensures Decimal("") == 0
    ensures n > 0 && p < |text| && IsDigit(text[p]) ==>
      AllDigits(text, start, p + 1) && SkipDigits(text, p, n) == SkipDigits(text, p + 1, n - 1)
    ensures !(n > 0 && p < |text| && IsDigit(text[p])) ==> SkipDigits(text, p, n) == p
    ensures p < |text| && IsDigit(text[p]) ==>
      Decimal(text[start..p + 1]) == 10 * Decimal(text[start..p]) + (text[p] as int - '0' as int)
  {
    if p < |text| && IsDigit(text[p]) {
      var s := text[start..p + 1];
      assert s[..|s| - 1] == text[start..p] && s[|s| - 1] == text[p];
    }
  }

  /** read_string, behind the first delimiter. */
  function ReadChars(text: string, p: nat, del: char, line: nat): (r: Read)
    requires p <= |text|
    ensures r.Got? ==> p < r.next <= |text|
    decreases |text| - p
  {
    if p == |text| || (text[p] != del && IsNewline(text[p])) then Bad("unfinished string")
    else if text[p] == del then Got("", p + 1, line)
    else if text[p] != '\\' then ReadChars(text, p + 1, del, line).After([text[p]])
    else if p + 1 == |text| then Bad("unfinished string")
    else
      var c := text[p + 1];
      if EscapeLetter(c).Some? then ReadChars(text, p + 2, del, line).After([EscapeLetter(c).value])
      else if IsNewline(c) then
        if line + 1 >= MAX_INT then Bad("chunk has too many lines")
        else ReadChars(text, SkipNewline(text, p + 1), del, line + 1).After("\n")
      else if !IsDigit(c) then ReadChars(text, p + 2, del, line).After([c])
      else
        var q := SkipDigits(text, p + 1, 3);
        var code := Decimal(text[p + 1..q]);
        if code > 255 then Bad("escape sequence too large") else ReadChars(text, q, del, line).After([code as char])
  }

  /** The scanner at a character of the text. */
  class LexState {
    const text: string
    var pos: nat
    var linenumber: nat
    var buff: string

    constructor (text: string)
      ensures this.text == text && pos == 0 && linenumber == 1
    {
      this.text, pos, linenumber, buff := text, 0, 1, "";
    }

    /** inclinenumber. */
    method IncLineNumber() returns (st: Status)
      requires pos < |text| && IsNewline(text[pos])
      modifies `pos, `linenumber
      ensures pos == SkipNewline(text, old(pos)) && linenumber == old(linenumber) + 1
      ensures st == if linenumber >= MAX_INT then Error("chunk has too many lines") else Okay
    {
      var before := text[pos];
      pos := pos + 1;
      if pos < |text| && IsNewline(text[pos]) && text[pos] != before {
        pos := pos + 1;
      }
      linenumber := linenumber + 1;
      st := if linenumber >= MAX_INT then Error("chunk has too many lines") else Okay;
    }

    /** The decimal escape of read_string, at its first digit. */
    method ReadDecimal() returns (code: nat)
      requires pos < |text| && IsDigit(text[pos])
      modifies `pos
      ensures pos == SkipDigits(text, old(pos), 3) && code == Decimal(text[old(pos)..pos])
    {
      NoDigits(text, pos);
      hide Decimal, SkipDigits, AllDigits, IsDigit;
      var i := 0;
      code := 0;
      ghost var start := pos;
      assert text[start..start] == "";
      DecimalFacts(text, start, start, 0);
      while i == 0 || (i < 3 && pos < |text| && IsDigit(text[pos]))
        invariant pos == start + i <= |text| && i <= 3 && (i == 0 ==> pos < |text| && IsDigit(text[pos]))
        invariant AllDigits(text, start, pos) && SkipDigits(text, pos, 3 - i) == SkipDigits(text, start, 3)
        invariant code == Decimal(text[start..pos])
        decreases 3 - i
      {
        DecimalFacts(text, start, pos, 3 - i);
        code := 10 * code + (text[pos] as int - '0' as int);
        pos := pos + 1;
        i := i + 1;
      }
      DecimalFacts(text, start, pos, 3 - i);
    }

    /** One round of the loop of read_string. */
    method ReadNext(del: char) returns (st: Status, ghost got: string)
      requires pos < |text| && text[pos] != del && !IsNewline(text[pos])
      modifies `pos, `linenumber, `buff
      ensures old(pos) < pos <= |text| && (st.Okay? ==> buff == old(buff) + got)
      ensures ReadChars(text, old(pos), del, old(linenumber))
        == if st.Error? then Bad(st.message) else ReadChars(text, pos, del, linenumber).After(got)
    {
      got, st := "", Okay;
      AfterNothing(ReadChars(text, |text|, del, linenumber));
      if text[pos] != '\\' {
        got := [text[pos]];
        buff := buff + [text[pos]];
        pos := pos + 1;
        return;
      }
      pos := pos + 1;
      if pos == |text| {
        return;
      }
      var c := text[pos];
      if EscapeLetter(c).Some? {
        got := [EscapeLetter(c).value];
        buff := buff + [EscapeLetter(c).value];
        pos := pos + 1;
      } else if IsNewline(c) {
        got := "\n";
        buff := buff + "\n";
        st := IncLineNumber();
      } else if !IsDigit(c) {
        got := [c];
        buff := buff + [c];
        pos := pos + 1;
      } else {
        var code := ReadDecimal();
        if code > 255 {
          return Error("escape sequence too large"), got;
        }
        got := [code as char];
        buff := buff + [code as char];
      }
    }

    /** read_string, at the delimiter. */
    method ReadString(del: char) returns (st: Status, s: string)
      requires pos < |text| && text[pos] == del
      modifies `pos, `linenumber, `buff
      ensures var r := ReadChars(text, old(pos) + 1, del, old(linenumber));
        if r.Got? then st == Okay && s == r.s && pos == r.next && linenumber == r.line else st == Error(r.message)
    {
      s, st := "", Okay;
      pos, buff := pos + 1, "";
      ghost var whole := ReadChars(text, pos, del, linenumber);
      AfterNothing(whole);
      while pos == |text| || text[pos] != del
        invariant st == Okay && pos <= |text| && whole == ReadChars(text, pos, del, linenumber).After(buff)
        decreases |text| - pos
      {
        if pos == |text| || IsNewline(text[pos]) {
          return Error("unfinished string"), s;
        }
        ghost var sofar, got := buff, "";
        st, got := ReadNext(del);
        if st.Error? {
          return;
        }
        AfterTwice(ReadChars(text, pos, del, linenumber), sofar, got);
      }
      pos := pos + 1;
      s := buff;
    }
  }

  lemma AfterNothing(r: Read)
    ensures r.After("") == r
  {
    if r.Got? {
      assert "" + r.s == r.s;
    }
  }

  lemma AfterTwice(r: Read, a: string, b: string)
    ensures r.After(b).After(a) == r.After(a + b)
  {
    if r.Got? {
      assert a + (b + r.s) == a + b + r.s;
    }
  }

  // ----- the round trip -----

  function Newlines(s: string): nat {
    if s == "" then 0 else Newlines(s[..|s| - 1]) + if s[|s| - 1] == '\n' then 1 else 0
  }

  /** A character is read back, whatever comes next: a digit after a zero, or a
      carriage return after a newline, is no part of its escape. */
  lemma CharBack(text: string, p: nat, c: char, rest: char, line: nat)
    requires HasAt(text, p, QuoteChar(c) + [rest]) && rest != '\n' && rest != '\r' && (c == '\n' ==> line + 1 < MAX_INT)
    ensures p + |QuoteChar(c)| <= |text|
    ensures ReadChars(text, p, '\"', line)
      == ReadChars(text, p + |QuoteChar(c)|, '\"', if c == '\n' then line + 1 else line).After([c])
  {
    var q := QuoteChar(c);
    HasSplit(text, p, q, [rest]);
    HasInside(text, p, q);
    HasNth(text, p, q, 0);
    if |q| >= 2 {
      HasNth(text, p, q, 1);
    }
    if c == '\n' {
      HasNth(text, p + |q|, [rest], 0);
    }
    if |q| == 4 {
      HasNth(text, p, q, 2);
      HasNth(text, p, q, 3);
      ZeroBack(text, p);
    }
  }

  lemma ZeroBack(text: string, p: nat)
    requires p + 4 <= |text| && text[p + 1] == '0' && text[p + 2] == '0' && text[p + 3] == '0'
    ensures SkipDigits(text, p + 1, 3) == p + 4 && Decimal(text[p + 1..p + 4]) == 0
  {
    assert SkipDigits(text, p + 4, 0) == p + 4;
    assert SkipDigits(text, p + 3, 1) == p + 4;
    assert SkipDigits(text, p + 2, 2) == p + 4;
    assert text[p + 1..p + 4] == "000";
    assert "000"[..2] == "00" && "00"[..1] == "0" && "0"[..0] == "";
    assert Decimal("") == 0 && Decimal("0") == 0 && Decimal("00") == 0;
  }

  /** An escape never starts with a line break, so none is skipped with the one
      before. */
  lemma {:induction false} CharsBack(text: string, p: nat, s: string, line: nat, end: char)
    requires HasAt(text, p, QuoteChars(s) + [end]) && end != '\n' && end != '\r' && line + Newlines(s) < MAX_INT
    ensures p + |QuoteChars(s)| <= |text|
    ensures ReadChars(text, p, '\"', line)
      == ReadChars(text, p + |QuoteChars(s)|, '\"', line + Newlines(s)).After(s)
    decreases |s|
  {
    hide ReadChars, HasAt, QuoteChar;
    HasSplit(text, p, QuoteChars(s), [end]);
    HasInside(text, p, QuoteChars(s));
    if s == "" {
      AfterNothing(ReadChars(text, p, '\"', line));
    } else {
      var t, c := s[..|s| - 1], s[|s| - 1];
      var q, first := p + |QuoteChars(t)|, FirstOf(c);
      HasSplit(text, p, QuoteChars(t), QuoteChar(c));
      HasSplit(text, q, QuoteChar(c), [end]);
      CharBack(text, q, c, end, line + Newlines(t));
      HasPrefix(text, q, QuoteChar(c), [first]);
      HasSplit(text, p, QuoteChars(t), [first]);
      CharsBack(text, p, t, line, first);
      AfterTwice(ReadChars(text, p + |QuoteChars(s)|, '\"', line + Newlines(s)), t, [c]);
      assert s == t + [c];
    }
  }

  function FirstOf(c: char): (first: char)
    ensures [first] <= QuoteChar(c) && first != '\n' && first != '\r'
  {
    QuoteChar(c)[0]
  }

  /** Every string comes back from its quoted form, which is read to its end, as
      long as lines can be counted. */
  lemma QuoteRead(text: string, p: nat, s: string, line: nat)
    requires HasAt(text, p, Quote(s)) && line + Newlines(s) < MAX_INT
    ensures p < |text| && text[p] == '\"'
    ensures ReadChars(text, p + 1, '\"', line) == Got(s, p + |Quote(s)|, line + Newlines(s))
  {
    hide QuoteChars, ReadChars, HasAt;
    assert Quote(s) == "\"" + (QuoteChars(s) + "\"");
    HasSplit(text, p, "\"", QuoteChars(s) + "\"");
    HasNth(text, p, "\"", 0);
    HasInside(text, p, "\"");
    var q := p + 1 + |QuoteChars(s)|;
    HasSplit(text, p + 1, QuoteChars(s), "\"");
    HasNth(text, q, "\"", 0);
    HasInside(text, q, "\"");
    EndRead(text, q, line + Newlines(s));
    CharsBack(text, p + 1, s, line, '\"');
    assert s + "" == s;
  }

  lemma EndRead(text: string, p: nat, line: nat)
    requires p < |text| && text[p] == '\"'
    ensures ReadChars(text, p, '\"', line) == Got("", p + 1, line)
  {
  }
}
