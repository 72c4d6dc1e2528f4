/** Quoted strings character by character: what the scanner makes of each way to
    write one, and what `%q` writes. */
module QuotedLaws {
  import opened Wrappers
  import opened Texts
  import opened Quoted

  /** The pieces of a string between delimiters: a character that stands for
      itself, and a backslash before a letter, one to three digits, a line break
      or any other character. */
  datatype Piece =
    | Itself(c: char)
    | Letter(c: char)
    | Digits(ds: string)
    | Break(br: string)
    | Other(c: char)

  /** The number that one to three digits write. */
  function Value(ds: string): int
    requires 1 <= |ds| <= 3
  {
    if |ds| == 1 then ds[0] as int - 48
    else if |ds| == 2 then 10 * (ds[0] as int - 48) + (ds[1] as int - 48)
    else 100 * (ds[0] as int - 48) + 10 * (ds[1] as int - 48) + (ds[2] as int - 48)
  }

  /** A piece before the character `next`: fewer than three digits end before a
      character that is no digit, and a line break of one character before one
      that does not belong to it. */
  predicate PieceOk(x: Piece, del: char, next: char) {
    match x
    case Itself(c) => c != del && c !in "\\\n\r"
    case Letter(c) => c in "abfnrtv"
    case Digits(ds) =>
      && 1 <= |ds| <= 3 && (forall i :: 0 <= i < |ds| ==> 48 <= ds[i] as int <= 57) && Value(ds) <= 255
      && (|ds| == 3 || !(48 <= next as int <= 57))
    case Break(br) =>
      br in {"\n", "\r", "\n\r", "\r\n"} && (br == "\n" ==> next != '\r') && (br == "\r" ==> next != '\n')
    case Other(c) => c !in "abfnrtv\n\r0123456789"
  }

  function PieceText(x: Piece): (s: string)
    ensures s != ""
  {
    match x
    case Itself(c) => [c]
    case Letter(c) => ['\\', c]
    case Digits(ds) => "\\" + ds
    case Break(br) => "\\" + br
    case Other(c) => ['\\', c]
  }

  function PieceBytes(x: Piece, del: char, next: char): string
    requires PieceOk(x, del, next)
  {
    match x
    case Itself(c) => [c]
    case Letter(c) =>
      if c == 'a' then "\U{7}" else if c == 'b' then "\U{8}" else if c == 'f' then "\U{c}"
      else if c == 'n' then "\U{a}" else if c == 'r' then "\U{d}" else if c == 't' then "\U{9}" else "\U{b}"
    case Digits(ds) => [Value(ds) as char]
    case Break(_) => "\n"
    case Other(c) => [c]
  }

  lemma DigitsValue(text: string, p: nat, ds: string)
    requires HasAt(text, p, ds) && 1 <= |ds| <= 3 && forall i :: 0 <= i < |ds| ==> IsDigit(ds[i])
    requires |ds| == 3 || p + |ds| == |text| || !IsDigit(text[p + |ds|])
    ensures p + |ds| <= |text| && SkipDigits(text, p, 3) == p + |ds|
    ensures AllDigits(text, p, p + |ds|) && Decimal(text[p..p + |ds|]) == Value(ds)
  {
    HasNth(text, p, ds, 0);
    NoDigits(text, p);
    assert text[p..p] == "";
    DecimalFacts(text, p, p, 3);
    if |ds| > 1 {
      HasNth(text, p, ds, 1);
      DecimalFacts(text, p, p + 1, 2);
    }
    if |ds| > 2 {
      HasNth(text, p, ds, 2);
      DecimalFacts(text, p, p + 2, 1);
    }
    DecimalFacts(text, p, p + |ds|, 3 - |ds|);
  }

  /** One piece is read as its character. */
  lemma PieceRead(text: string, p: nat, x: Piece, del: char, next: char, line: nat)
    requires HasAt(text, p, PieceText(x) + [next]) && PieceOk(x, del, next) && del in "'\""
    requires x.Break? ==> line + 1 < 0x7FFF_FFFD
    ensures p + |PieceText(x)| < |text|
    ensures ReadChars(text, p, del, line) == ReadChars(text, p + |PieceText(x)|, del,
      if x.Break? then line + 1 else line).After(PieceBytes(x, del, next))
  {
    hide PieceOk, PieceBytes, ReadChars;
    var t := PieceText(x);
    HasSplit(text, p, t, [next]);
    HasInside(text, p, t + [next]);
    HasNth(text, p + |t|, [next], 0);
    HasNth(text, p, t, 0);
    if |t| > 1 {
      HasNth(text, p, t, 1);
    }
    hide HasAt, PieceText;
    PieceForms(x, del, next);
    match x {
      case Itself(_) => StepPlain(text, p, del, line);
      case Letter(_) => StepLetter(text, p, del, line);
      case Digits(ds) =>
        HasSplit(text, p, "\\", ds);
        DigitsValue(text, p + 1, ds);
        StepDigits(text, p, ds, del, line);
      case Break(br) =>
        if |br| == 2 {
          HasNth(text, p, t, 2);
        }
        StepBreak(text, p, br, del, line);
      case Other(_) => StepOther(text, p, del, line);
    }
  }

  lemma PieceForms(x: Piece, del: char, next: char)
    requires PieceOk(x, del, next)
    ensures match x
      case Itself(c) => PieceText(x) == [c] && PieceBytes(x, del, next) == [c] && c != del && c !in "\\\n\r"
      case Letter(c) =>
        PieceText(x) == ['\\', c] && EscapeLetter(c).Some? && PieceBytes(x, del, next) == [EscapeLetter(c).value]
      case Digits(ds) =>
        PieceText(x) == "\\" + ds && PieceText(x)[1] == ds[0] && 1 <= |ds| <= 3 && 0 <= Value(ds) <= 255
        && (forall i :: 0 <= i < |ds| ==> IsDigit(ds[i])) && PieceBytes(x, del, next) == [Value(ds) as char]
        && (|ds| == 3 || !IsDigit(next))
      case Break(br) =>
        PieceText(x) == "\\" + br && PieceBytes(x, del, next) == "\n" && br in {"\n", "\r", "\n\r", "\r\n"}
        && PieceText(x)[1] == br[0] && (|br| == 2 ==> PieceText(x)[2] == br[1])
        && (|br| == 1 ==> !(IsNewline(next) && next != br[0]))
      case Other(c) =>
        PieceText(x) == ['\\', c] && PieceBytes(x, del, next) == [c] && EscapeLetter(c).None? && !IsNewline(c)
        && !IsDigit(c)
  {
  }

  lemma StepPlain(text: string, p: nat, del: char, line: nat)
    requires p < |text| && text[p] != del && text[p] !in "\\\n\r"
    ensures ReadChars(text, p, del, line) == ReadChars(text, p + 1, del, line).After([text[p]])
  {
  }

  lemma StepLetter(text: string, p: nat, del: char, line: nat)
    requires p + 1 < |text| && text[p] == '\\' && EscapeLetter(text[p + 1]).Some? && del != '\\'
    ensures ReadChars(text, p, del, line)
      == ReadChars(text, p + 2, del, line).After([EscapeLetter(text[p + 1]).value])
  {
  }

  lemma StepDigits(text: string, p: nat, ds: string, del: char, line: nat)
    requires 1 <= |ds| && p + 1 + |ds| <= |text| && text[p] == '\\' && IsDigit(text[p + 1]) && del != '\\'
    requires SkipDigits(text, p + 1, 3) == p + 1 + |ds| && AllDigits(text, p + 1, p + 1 + |ds|)
    ensures var code := Decimal(text[p + 1..p + 1 + |ds|]);
      ReadChars(text, p, del, line) == if code > 255 then Bad("escape sequence too large")
        else ReadChars(text, p + 1 + |ds|, del, line).After([code as char])
  {
  }

  lemma StepBreak(text: string, p: nat, br: string, del: char, line: nat)
    requires 1 <= |br| <= 2 && p + 1 + |br| < |text| && text[p] == '\\' && del != '\\' && line + 1 < 0x7FFF_FFFD
    requires br in {"\n", "\r", "\n\r", "\r\n"} && text[p + 1] == br[0] && (|br| == 2 ==> text[p + 2] == br[1])
    requires |br| == 1 ==> !(IsNewline(text[p + 2]) && text[p + 2] != br[0])
    ensures ReadChars(text, p, del, line) == ReadChars(text, p + 1 + |br|, del, line + 1).After("\n")
  {
  }

  lemma StepOther(text: string, p: nat, del: char, line: nat)
    requires p + 1 < |text| && text[p] == '\\' && del != '\\' && EscapeLetter(text[p + 1]).None?
    requires !IsNewline(text[p + 1]) && !IsDigit(text[p + 1])
    ensures ReadChars(text, p, del, line) == ReadChars(text, p + 2, del, line).After([text[p + 1]])
  {
  }

  /** An escape for a number above 255 is an error. */
  lemma TooLarge(text: string, p: nat, ds: string, del: char, line: nat)
    requires HasAt(text, p, "\\" + ds) && |ds| == 3 && (forall i :: 0 <= i < |ds| ==> 48 <= ds[i] as int <= 57)
    requires Value(ds) > 255 && del in "'\""
    ensures ReadChars(text, p, del, line) == Bad("escape sequence too large")
  {
    HasSplit(text, p, "\\", ds);
    HasNth(text, p, "\\", 0);
    HasNth(text, p + 1, ds, 0);
    DigitsValue(text, p + 1, ds);
  }

  /** A line break without a backslash, or the end of the text, ends the string too
      early. */
  lemma Unfinished(text: string, p: nat, del: char, line: nat)
    requires p <= |text| && del in "'\"" && (p < |text| ==> text[p] in "\n\r")
    ensures ReadChars(text, p, del, line) == Bad("unfinished string")
  {
  }

  // ----- whole strings -----

  function TextOf(xs: seq<Piece>): string {
    if xs == [] then "" else PieceText(xs[0]) + TextOf(xs[1..])
  }

  function NextOf(xs: seq<Piece>, del: char): char {
    if xs == [] then del else PieceText(xs[0])[0]
  }

  predicate AllOk(xs: seq<Piece>, del: char) {
    xs == [] || (PieceOk(xs[0], del, NextOf(xs[1..], del)) && AllOk(xs[1..], del))
  }

  function BytesOf(xs: seq<Piece>, del: char): string
    requires AllOk(xs, del)
  {
    if xs == [] then "" else PieceBytes(xs[0], del, NextOf(xs[1..], del)) + BytesOf(xs[1..], del)
  }

  function Breaks(xs: seq<Piece>): nat {
    if xs == [] then 0 else (if xs[0].Break? then 1 else 0) + Breaks(xs[1..])
  }

  /** A string between delimiters is read as the bytes of its pieces, and its line
      breaks are counted. */
  lemma {:induction false} StringRead(text: string, p: nat, xs: seq<Piece>, del: char, line: nat)
    requires HasAt(text, p, TextOf(xs) + [del]) && AllOk(xs, del) && del in "'\"" && line + Breaks(xs) < 0x7FFF_FFFD
    ensures p < |text|
    ensures ReadChars(text, p, del, line) == Got(BytesOf(xs, del), p + |TextOf(xs)| + 1, line + Breaks(xs))
    decreases |xs|
  {
    hide PieceOk, PieceText, PieceBytes, HasAt;
    HasInside(text, p, TextOf(xs) + [del]);
    if xs == [] {
      assert TextOf(xs) + [del] == [del];
      HasNth(text, p, [del], 0);
    } else {
      var x, ys := xs[0], xs[1..];
      var next := NextOf(ys, del);
      assert TextOf(xs) + [del] == PieceText(x) + (TextOf(ys) + [del]);
      HasSplit(text, p, PieceText(x), TextOf(ys) + [del]);
      var q := p + |PieceText(x)|;
      assert [next] <= TextOf(ys) + [del];
      HasPrefix(text, q, TextOf(ys) + [del], [next]);
      HasSplit(text, p, PieceText(x), [next]);
      PieceRead(text, p, x, del, next, line);
      hide ReadChars;
      StringRead(text, q, ys, del, if x.Break? then line + 1 else line);
    }
  }

  // ----- writing -----

  /** What `%q` writes for the characters of a string, one after the other. */
  lemma Writes(s: string, c: char)
    ensures Quote(s) == "\"" + QuoteChars(s) + "\"" && QuoteChars("") == ""
    ensures QuoteChars(s + [c]) == QuoteChars(s) + (
      if c as int == 0 then "\\000" else if c as int == 10 then "\\\n" else if c as int == 13 then "\\r"
      else if c as int == 34 then "\\\"" else if c as int == 92 then "\\\\" else [c])
  {
    var t := s + [c];
    assert t[..|t| - 1] == s;
  }
}
