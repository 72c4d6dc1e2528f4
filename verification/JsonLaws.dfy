/** JSON texts character by character: which text stands for which value. */
module JsonLaws {
  import opened Texts
  import opened JsonText

  // ----- the pieces of a string -----

  /** A character that stands for itself, a backslash with a letter or sign, and
      one or two escapes with four digits each for code point `n`, whose UTF-8
      form is `utf8`. */
  datatype Piece =
    | Itself(c: char)
    | Short(letter: char)
    | Code(n: nat, digits: string, utf8: string)
    | Pair(n: nat, high: string, low: string, utf8: string)

  predicate IsDigit(c: char, d: nat) {
    d < 16 && (c == "0123456789abcdef"[d] || c == "0123456789ABCDEF"[d])
  }

  /** Four digits, the most significant first. */
  predicate Spells(digits: string, n: nat) {
    && |digits| == 4 && n < 0x1_0000
    && IsDigit(digits[0], n / 4096) && IsDigit(digits[1], n / 256 % 16)
    && IsDigit(digits[2], n / 16 % 16) && IsDigit(digits[3], n % 16)
  }

  /** Section 3 of RFC 3629. */
  predicate IsUtf8(s: string, n: nat) {
    var byte := seq(|s|, i requires 0 <= i < |s| => s[i] as int);
    if n < 0x80 then byte == [n]
    else if n < 0x800 then byte == [0xC0 + n / 64, 0x80 + n % 64]
    else if n < 0x1_0000 then byte == [0xE0 + n / 4096, 0x80 + n / 64 % 64, 0x80 + n % 64]
    else byte == [0xF0 + n / 262144, 0x80 + n / 4096 % 64, 0x80 + n / 64 % 64, 0x80 + n % 64]
  }

  predicate PieceOk(x: Piece) {
    match x
    case Itself(c) => c !in "\"\\\0"
    case Short(l) => l in "bfnrt\"\\/"
    case Code(n, digits, utf8) => Spells(digits, n) && !(0xD800 <= n <= 0xDFFF) && IsUtf8(utf8, n)
    case Pair(n, high, low, utf8) =>
      && 0x1_0000 <= n <= 0x10_FFFF && IsUtf8(utf8, n)
      && Spells(high, 0xD800 + (n - 0x1_0000) / 0x400) && Spells(low, 0xDC00 + (n - 0x1_0000) % 0x400)
  }

  function PieceText(x: Piece): string {
    match x
    case Itself(c) => [c]
    case Short(l) => ['\\', l]
    case Code(_, digits, _) => "\\u" + digits
    case Pair(_, high, low, _) => "\\u" + high + ("\\u" + low)
  }

  function PieceBytes(x: Piece): string {
    match x
    case Itself(c) => [c]
    case Short(l) =>
      if l == 'b' then "\U{8}" else if l == 't' then "\U{9}" else if l == 'n' then "\U{a}" else if l == 'f' then "\U{c}"
      else if l == 'r' then "\U{d}" else [l]
    case Code(_, _, utf8) => utf8
    case Pair(_, _, _, utf8) => utf8
  }

  function TextOf(xs: seq<Piece>): string {
    if xs == [] then "" else TextOf(xs[..|xs| - 1]) + PieceText(xs[|xs| - 1])
  }

  function BytesOf(xs: seq<Piece>): string {
    if xs == [] then "" else BytesOf(xs[..|xs| - 1]) + PieceBytes(xs[|xs| - 1])
  }

  // ----- reading strings -----

  lemma DigitValue(c: char, d: nat)
    requires IsDigit(c, d)
    ensures HexValue(c) == d
  {
  }

  lemma FourHex(text: string, p: nat, digits: string, n: nat)
    requires HasAt(text, p, digits) && Spells(digits, n)
    ensures Hex4(text, p) == n
  {
    HasNth(text, p, digits, 0);
    HasNth(text, p, digits, 1);
    HasNth(text, p, digits, 2);
    HasNth(text, p, digits, 3);
    DigitValue(digits[0], n / 4096);
    DigitValue(digits[1], n / 256 % 16);
    DigitValue(digits[2], n / 16 % 16);
    DigitValue(digits[3], n % 16);
    hide IsDigit, HexValue, HasAt;
    HexDigits(n);
  }

  lemma HexDigits(n: nat)
    ensures n == n / 4096 * 4096 + n / 256 % 16 * 256 + n / 16 % 16 * 16 + n % 16
  {
    assert n / 256 == n / 16 / 16 && n / 4096 == n / 256 / 16;
  }

  lemma Utf8Is(s: string, n: nat)
    requires IsUtf8(s, n) && n <= 0x10_FFFF
    ensures s == Utf8(n)
  {
    var byte := seq(|s|, i requires 0 <= i < |s| => s[i] as int);
    var t := Utf8(n);
    assert |s| == |byte| == |t|;
    assert 0x1000 == 64 * 64 && 262144 == 0x4_0000;
    forall i | 0 <= i < |s|
      ensures s[i] == t[i]
    {
      assert byte[i] == s[i] as int == t[i] as int;
    }
  }

  lemma CodeRead(text: string, p: nat, n: nat, digits: string, utf8: string)
    requires HasAt(text, p, "\\u" + digits) && PieceOk(Code(n, digits, utf8))
    ensures UnicodeEscape(text, p) == Bytes(utf8, 6)
  {
    HasSplit(text, p, "\\u", digits);
    HasInside(text, p, "\\u" + digits);
    FourHex(text, p + 2, digits, n);
    Utf8Is(utf8, n);
  }

  lemma PairRead(text: string, p: nat, n: nat, high: string, low: string, utf8: string)
    requires HasAt(text, p, "\\u" + high + ("\\u" + low)) && PieceOk(Pair(n, high, low, utf8))
    ensures UnicodeEscape(text, p) == Bytes(utf8, 12)
  {
    hide HasAt, Hex4, Spells, IsUtf8, UnicodeEscape, Utf8;
    SpellsFour(high, 0xD800 + (n - 0x1_0000) / 0x400);
    HasSplit(text, p, "\\u" + high, "\\u" + low);
    HasSplit(text, p, "\\u", high);
    HasSplit(text, p + 6, "\\u", low);
    HasNth(text, p + 6, "\\u", 0);
    HasNth(text, p + 6, "\\u", 1);
    var m := n - 0x1_0000;
    FourHex(text, p + 2, high, 0xD800 + m / 0x400);
    FourHex(text, p + 8, low, 0xDC00 + m % 0x400);
    HasInside(text, p + 8, low);
    Utf8Is(utf8, n);
    SurrogatePairs(text, p, 0xD800 + m / 0x400, 0xDC00 + m % 0x400);
  }

  lemma PieceRead(text: string, p: nat, x: Piece, next: Lexed)
    requires HasAt(text, p, PieceText(x)) && PieceOk(x) && p + |PieceText(x)| <= |text|
    requires next == LexString(text, p + |PieceText(x)|)
    ensures LexString(text, p) == Prefixed(PieceBytes(x), next)
  {
    hide LexString, UnicodeEscape, HasAt, Spells, IsUtf8;
    var t := PieceText(x);
    HasNth(text, p, t, 0);
    LexCases(text, p);
    match x {
      case Itself(_) =>
      case Short(l) => HasNth(text, p, t, 1);
      case Code(n, digits, utf8) =>
        HasNth(text, p, t, 1);
        CodeRead(text, p, n, digits, utf8);
        assert |digits| == 4 by { SpellsFour(digits, n); }
      case Pair(n, high, low, utf8) =>
        HasNth(text, p, t, 1);
        PairRead(text, p, n, high, low, utf8);
        SpellsFour(high, 0xD800 + (n - 0x1_0000) / 0x400);
        SpellsFour(low, 0xDC00 + (n - 0x1_0000) % 0x400);
    }
  }

  lemma SpellsFour(digits: string, n: nat)
    requires Spells(digits, n)
    ensures |digits| == 4
  {
  }

  lemma {:induction false} PiecesRead(text: string, p: nat, xs: seq<Piece>, next: Lexed)
    requires HasAt(text, p, TextOf(xs)) && (forall i :: 0 <= i < |xs| ==> PieceOk(xs[i]))
    requires p + |TextOf(xs)| <= |text| && next == LexString(text, p + |TextOf(xs)|)
    ensures LexString(text, p) == Prefixed(BytesOf(xs), next)
    decreases |xs|
  {
    hide LexString, PieceText, PieceBytes, PieceOk, HasAt;
    if xs == [] {
      PrefixedNothing(next);
    } else {
      var ys, x := xs[..|xs| - 1], xs[|xs| - 1];
      HasSplit(text, p, TextOf(ys), PieceText(x));
      var q := p + |TextOf(ys)|;
      PieceRead(text, q, x, next);
      PiecesRead(text, p, ys, LexString(text, q));
      PrefixedTwice(BytesOf(ys), PieceBytes(x), next);
    }
  }

  /** A quoted sequence of pieces is the string of their bytes: decoded alone, it
      is read to its end. */
  lemma StringDecoded(cfg: Config, text: string, xs: seq<Piece>)
    requires text == "\"" + (TextOf(xs) + "\"") && forall i :: 0 <= i < |xs| ==> PieceOk(xs[i])
    ensures Decode(cfg, text) == Decoded(Str(BytesOf(xs)), |text|)
  {
    hide *;
    TextNoZero(xs);
    QuotedText(text, TextOf(xs));
    LexPieces(cfg, text, xs);
    StringAlone(cfg, text, BytesOf(xs));
  }

  lemma LexPieces(cfg: Config, text: string, xs: seq<Piece>)
    requires HasAt(text, 0, "\"") && HasAt(text, 1, TextOf(xs)) && |text| == |TextOf(xs)| + 2
    requires At(text, 1 + |TextOf(xs)|) == '\"' && forall i :: 0 <= i < |xs| ==> PieceOk(xs[i])
    ensures Lex(cfg, text, 0) == Lexed(StringToken(BytesOf(xs)), |text|)
  {
    hide LexString, TextOf, BytesOf, PieceOk, HasAt, At;
    var q := 1 + |TextOf(xs)|;
    LexQuoted(cfg, text, 0);
    LexQuote(text, q);
    PiecesRead(text, 1, xs, LexString(text, q));
    assert BytesOf(xs) + "" == BytesOf(xs);
  }

  lemma QuotedText(text: string, s: string)
    requires text == "\"" + (s + "\"")
    ensures NoZero(s) ==> NoZero(text)
    ensures HasAt(text, 0, "\"") && HasAt(text, 1, s) && |text| == |s| + 2 && At(text, 1 + |s|) == '\"'
  {
    assert text[0..|text|] == text;
    HasSplit(text, 0, "\"", s + "\"");
    HasSplit(text, 1, s, "\"");
    HasNth(text, 1 + |s|, "\"", 0);
  }

  /** A text that is one token for a string. */
  lemma StringAlone(cfg: Config, text: string, s: string)
    requires Lex(cfg, text, 0) == Lexed(StringToken(s), |text|)
    requires NoZero(text)
    ensures Decode(cfg, text) == Decoded(Str(s), |text|)
  {
    assert Lex(cfg, text, |text|).tok == JsonText.End;
    hide Lex;
  }

  lemma {:induction false} TextNoZero(xs: seq<Piece>)
    requires forall i :: 0 <= i < |xs| ==> PieceOk(xs[i])
    ensures NoZero(TextOf(xs))
    decreases |xs|
  {
    if xs != [] {
      TextNoZero(xs[..|xs| - 1]);
      PieceNoZero(xs[|xs| - 1]);
    }
  }

  lemma PieceNoZero(x: Piece)
    requires PieceOk(x)
    ensures NoZero(PieceText(x))
  {
    if x.Code? {
      SpellsNoZero(x.digits, x.n);
    } else if x.Pair? {
      SpellsNoZero(x.high, 0xD800 + (x.n - 0x1_0000) / 0x400);
      SpellsNoZero(x.low, 0xDC00 + (x.n - 0x1_0000) % 0x400);
    }
    hide Spells, IsUtf8;
  }

  lemma SpellsNoZero(digits: string, n: nat)
    requires Spells(digits, n)
    ensures NoZero(digits)
  {
    DigitNoZero(digits[0], n / 4096);
    DigitNoZero(digits[1], n / 256 % 16);
    DigitNoZero(digits[2], n / 16 % 16);
    DigitNoZero(digits[3], n % 16);
  }

  lemma DigitNoZero(c: char, d: nat)
    requires IsDigit(c, d)
    ensures c != '\0'
  {
  }

  /** No letter or sign but these may follow a backslash. */
  lemma BadEscape(text: string, p: nat)
    requires p + 1 < |text| && text[p] == '\\' && text[p + 1] !in "bfnrtu\"\\/"
    ensures LexString(text, p).tok == ErrorToken("invalid escape code")
  {
  }

  /** Nor may anything but a digit follow in an escape for a code point. */
  lemma BadDigits(text: string, p: nat, i: nat)
    requires p + 1 < |text| && text[p] == '\\' && text[p + 1] == 'u'
    requires p + 2 <= i < p + 6 && forall d :: !IsDigit(At(text, i), d)
    ensures LexString(text, p).tok == ErrorToken("invalid unicode escape code")
  {
    NoDigit(At(text, i));
    assert Hex4(text, p + 2) == -1;
  }

  lemma NoDigit(c: char)
    requires forall d :: !IsDigit(c, d)
    ensures HexValue(c) == -1
  {
    if HexValue(c) >= 0 {
      assert IsDigit(c, HexValue(c));
    }
  }

  /** Digits with a value spell it. */
  lemma SpellsBack(text: string, p: nat)
    requires Hex4(text, p) >= 0
    ensures Spells(text[p..p + 4], Hex4(text, p)) && HasAt(text, p, text[p..p + 4])
  {
    var n, ds := Hex4(text, p), text[p..p + 4];
    var a, b, c, d := HexValue(text[p]), HexValue(text[p + 1]), HexValue(text[p + 2]), HexValue(text[p + 3]);
    ValueDigit(text[p]);
    ValueDigit(text[p + 1]);
    ValueDigit(text[p + 2]);
    ValueDigit(text[p + 3]);
    assert n == a * 4096 + b * 256 + c * 16 + d;
    hide Hex4, HexValue, IsDigit;
    ParseHex(a, b, c, d, n);
  }

  lemma ParseHex(a: nat, b: nat, c: nat, d: nat, n: nat)
    requires a < 16 && b < 16 && c < 16 && d < 16 && n == a * 4096 + b * 256 + c * 16 + d
    ensures n < 0x1_0000 && n / 4096 == a && n / 256 % 16 == b && n / 16 % 16 == c && n % 16 == d
  {
    assert n / 16 == a * 256 + b * 16 + c;
    assert n / 256 == a * 16 + b;
  }

  lemma ValueDigit(c: char)
    requires HexValue(c) >= 0
    ensures IsDigit(c, HexValue(c))
  {
  }

  /** A low surrogate alone is an error, and so is a high one that no escape with a
      low one follows. */
  lemma LoneSurrogate(text: string, p: nat, n: nat, digits: string)
    requires HasAt(text, p, "\\u" + digits) && Spells(digits, n)
    requires 0xD800 <= n <= 0xDBFF ==>
      forall m, ds :: Spells(ds, m) && 0xDC00 <= m <= 0xDFFF ==> !HasAt(text, p + 6, "\\u" + ds)
    ensures 0xD800 <= n <= 0xDFFF ==> LexString(text, p).tok == ErrorToken("invalid unicode escape code")
  {
    SpellsFour(digits, n);
    HasInside(text, p, "\\u" + digits);
    HasNth(text, p, "\\u" + digits, 0);
    HasNth(text, p, "\\u" + digits, 1);
    HasSplit(text, p, "\\u", digits);
    FourHex(text, p + 2, digits, n);
    if 0xD800 <= n <= 0xDBFF && At(text, p + 6) == '\\' && At(text, p + 7) == 'u' {
      NoLow(text, p + 6);
    }
    hide Hex4, Spells, HasAt;
  }

  lemma NoLow(text: string, p: nat)
    requires At(text, p) == '\\' && At(text, p + 1) == 'u'
    requires forall m, ds :: Spells(ds, m) && 0xDC00 <= m <= 0xDFFF ==> !HasAt(text, p, "\\u" + ds)
    ensures Hex4(text, p + 2) < 0 || !(0xDC00 <= Hex4(text, p + 2) <= 0xDFFF)
  {
    var m := Hex4(text, p + 2);
    if m >= 0 {
      SpellsBack(text, p + 2);
      var ds := text[p + 2..p + 6];
      assert text[p..p + 6] == "\\u" + ds;
    }
  }

  // ----- writing strings -----

  /** The piece that is written for a character. */
  function PieceOf(c: char): Piece {
    var n := c as int;
    if n == 8 then Short('b')
    else if n == 9 then Short('t')
    else if n == 10 then Short('n')
    else if n == 12 then Short('f')
    else if n == 13 then Short('r')
    else if n == 34 || n == 47 || n == 92 then Short(c)
    else if n < 32 then Code(n, ['0', '0', "01"[n / 16], "0123456789abcdef"[n % 16]], [c])
    else if n == 127 then Code(127, "007f", [c])
    else Itself(c)
  }

  function PiecesOf(s: string): (xs: seq<Piece>)
    ensures |xs| == |s|
  {
    if s == "" then [] else PiecesOf(s[..|s| - 1]) + [PieceOf(s[|s| - 1])]
  }

  lemma PieceWritten(c: char)
    ensures PieceText(PieceOf(c)) == Escape(c)
  {
  }

  /** A string is written as the pieces of its characters, in quotes. */
  lemma StringEncoded(cfg: Config, s: string, depth: nat)
    ensures Encode(cfg, Str(s), depth) == Text("\"" + TextOf(PiecesOf(s)) + "\"")
  {
    PiecesWritten(s);
  }

  lemma {:induction false} PiecesWritten(s: string)
    ensures TextOf(PiecesOf(s)) == Escapes(s)
    decreases |s|
  {
    if s != "" {
      var t, c := s[..|s| - 1], s[|s| - 1];
      PiecesWritten(t);
      PieceWritten(c);
      assert PiecesOf(s)[..|s| - 1] == PiecesOf(t);
    }
  }

  // ----- words, blanks and other characters -----

  lemma Words(cfg: Config, b: bool, depth: nat)
    ensures Encode(cfg, Bool(true), depth) == Text("true") && Decode(cfg, "true") == Decoded(Bool(true), 4)
    ensures Encode(cfg, Bool(false), depth) == Text("false") && Decode(cfg, "false") == Decoded(Bool(false), 5)
    ensures Encode(cfg, Null, depth) == Text("null") && Decode(cfg, "null") == Decoded(Null, 4)
    ensures Encode(cfg, Nil, depth) == Text("null")
  {
    WordAlone(cfg, "true");
    WordAlone(cfg, "false");
    WordAlone(cfg, "null");
  }

  lemma WordAlone(cfg: Config, word: string)
    requires word in ["true", "false", "null"]
    ensures Decode(cfg, word) == Decoded(if word == "null" then Null else Bool(word == "true"), |word|)
  {
    assert word == "true" || word == "false" || word == "null";
    assert HasAt(word, 0, word);
    WordRead(cfg, word, 0, word);
    assert Lex(cfg, word, |word|).tok == JsonText.End;
    hide Lex, HasAt;
  }

  /** Blanks, tabs, line feeds and carriage returns before a token are skipped. */
  lemma Blank(cfg: Config, text: string, p: nat)
    requires p < |text| && text[p] as int in {9, 10, 13, 32}
    ensures Lex(cfg, text, p) == Lex(cfg, text, p + 1)
  {
  }

  /** A number is scanned where a digit or a minus is, and, beyond JSON, at a plus
      and at the words that begin with inf and nan in either case; what the scanner
      takes is the number. */
  lemma NumberStarts(cfg: Config, text: string, p: nat)
    requires p + 3 <= |text|
    requires text[p] in "-+0123456789" || (text[p] in "iI" && text[p + 1] in "nN" && text[p + 2] in "fF")
      || (text[p] in "nN" && text[p + 1] in "aA" && text[p + 2] in "nN")
    ensures var (n, end) := cfg.scan(text, p);
      Lex(cfg, text, p) == if p < end <= |text| then Lexed(NumberToken(n), end) else Lexed(ErrorToken("invalid number"), p)
  {
    NoWord(text, p);
    hide LexString, HasAt, LexNumber;
    assert Lex(cfg, text, p) == LexNumber(cfg, text, p);
    NumberScanned(cfg, text, p);
  }

  lemma NoWord(text: string, p: nat)
    requires p + 2 <= |text| && text[p] !in "tf" && (text[p] == 'n' ==> text[p + 1] != 'u')
    ensures !HasAt(text, p, "true") && !HasAt(text, p, "false") && !HasAt(text, p, "null")
  {
    if HasAt(text, p, "true") {
      HasNth(text, p, "true", 0);
    } else if HasAt(text, p, "false") {
      HasNth(text, p, "false", 0);
    } else if HasAt(text, p, "null") {
      HasNth(text, p, "null", 0);
      HasNth(text, p, "null", 1);
    }
  }

  lemma NumberScanned(cfg: Config, text: string, p: nat)
    requires p <= |text|
    ensures var (n, end) := cfg.scan(text, p);
      LexNumber(cfg, text, p)
        == if p < end <= |text| then Lexed(NumberToken(n), end) else Lexed(ErrorToken("invalid number"), p)
  {
  }

  /** The end is found behind blanks, where the text or its C string ends. */
  lemma {:induction false} EndToken(cfg: Config, text: string, p: nat)
    requires p <= |text|
    ensures Lex(cfg, text, p).tok == JsonText.End <==> exists q :: BlankTo(text, p, q)
    decreases |text| - p
  {
    if p < |text| && text[p] as int in {9, 10, 13, 32} {
      var p1 := p + 1;
      Blank(cfg, text, p);
      EndToken(cfg, text, p1);
      if q :| BlankTo(text, p, q) {
        assert BlankTo(text, p1, q);
      }
      if q :| BlankTo(text, p1, q) {
        assert BlankTo(text, p, q);
      }
    } else {
      EndHere(cfg, text, p);
      if q :| BlankTo(text, p, q) {
        assert q == p;
      }
      assert BlankTo(text, p, p) <==> At(text, p) == '\0';
    }
  }

  predicate BlankTo(text: string, p: nat, q: int) {
    && p <= q <= |text| && (q == |text| || text[q] == '\0')
    && forall i :: p <= i < q ==> text[i] as int in {9, 10, 13, 32}
  }

  lemma EndHere(cfg: Config, text: string, p: nat)
    requires p <= |text| && !IsWhite(At(text, p))
    ensures Lex(cfg, text, p).tok == JsonText.End <==> At(text, p) == '\0'
  {
    hide LexString, LexNumber;
  }

  /** No token starts with another character. */
  lemma NoToken(cfg: Config, text: string, p: nat)
    requires p < |text| && text[p] as int !in {0, 9, 10, 13, 32} && text[p] !in "{}[],:\"-+0123456789tfniIN"
    ensures Lex(cfg, text, p) == Lexed(ErrorToken("invalid token"), p)
  {
    assert !HasAt(text, p, "true") && !HasAt(text, p, "false") && !HasAt(text, p, "null") by {
      if HasAt(text, p, "true") {
        HasNth(text, p, "true", 0);
      } else if HasAt(text, p, "false") {
        HasNth(text, p, "false", 0);
      } else if HasAt(text, p, "null") {
        HasNth(text, p, "null", 0);
      }
    }
  }

  // ----- arrays and objects -----

  function Commas(ts: seq<string>): string {
    if ts == [] then ""
    else if |ts| == 1 then ts[0]
    else Commas(ts[..|ts| - 1]) + ("," + ts[|ts| - 1])
  }

  /** The text of item `n` of an array; a hole is null. */
  predicate ItemText(cfg: Config, entries: seq<Entry>, n: nat, depth: nat, t: string) {
    if (exists i :: 0 <= i < |entries| && entries[i].key == Index(n)) && Lookup(entries, Index(n)) != Nil
    then Encode(cfg, Lookup(entries, Index(n)), depth) == Text(t)
    else t == "null"
  }

  /** All keys are positive integers, and `max` is the largest one. */
  ghost predicate Largest(entries: seq<Entry>, max: nat) {
    && (forall i :: 0 <= i < |entries| ==> entries[i].key.Index? && 1 <= entries[i].key.n <= max)
    && (exists i :: 0 <= i < |entries| && entries[i].key == Index(max))
  }

  ghost predicate TooSparse(cfg: Config, n: nat, max: nat) {
    cfg.sparseRatio > 0 && max > n * cfg.sparseRatio && max > cfg.sparseSafe
  }

  lemma LengthIs(cfg: Config, entries: seq<Entry>, max: nat)
    requires Largest(entries, max)
    ensures LengthOf(cfg, entries) == if !TooSparse(cfg, |entries|, max) then Length(max)
      else if cfg.sparseConvert then NotArray else Sparse
  {
    var m := MaxIndex(entries);
    var i :| 0 <= i < |entries| && entries[i].key == Index(max);
    assert entries[i].key.n <= m;
  }

  /** A table with positive integer keys is an error if it is too sparse, and else
      an array of all its items up to the largest key. */
  lemma ArrayEncoded(cfg: Config, entries: seq<Entry>, max: nat, ts: seq<string>, depth: nat)
    requires Largest(entries, max) && depth + 1 <= cfg.encodeMaxDepth && |ts| == max
    requires forall i :: 0 <= i < max ==> ItemText(cfg, entries, i + 1, depth + 1, ts[i])
    ensures !TooSparse(cfg, |entries|, max) ==>
      Encode(cfg, Table(entries), depth) == Text("[" + Commas(ts) + "]")
    ensures TooSparse(cfg, |entries|, max) && !cfg.sparseConvert ==>
      Encode(cfg, Table(entries), depth) == Failed("excessively sparse array")
  {
    LengthIs(cfg, entries, max);
    if !TooSparse(cfg, |entries|, max) {
      hide LengthOf, EncodeItems, Commas, ItemText;
      ItemsEncoded(cfg, entries, max, ts, depth + 1);
      assert ts[..max] == ts;
    }
  }

  lemma {:induction false} ItemsEncoded(cfg: Config, entries: seq<Entry>, n: nat, ts: seq<string>, depth: nat)
    requires n <= |ts| && forall i :: 0 <= i < n ==> ItemText(cfg, entries, i + 1, depth, ts[i])
    ensures EncodeItems(cfg, Table(entries), n, depth) == Text(Commas(ts[..n]))
    decreases n
  {
    hide EncodeItems, Encode, Commas, ItemText, Lookup;
    if n == 0 {
      EncodeNothing(cfg, Table(entries), depth);
      JoinNothing();
      assert ts[..0] == [];
    } else {
      ItemsEncoded(cfg, entries, n - 1, ts, depth);
      ItemsLast(cfg, Table(entries), n, depth);
      ItemWritten(cfg, entries, n, depth, ts[n - 1]);
      JoinItem(ts[..n - 1], ts[n - 1]);
      assert ts[..n - 1] + [ts[n - 1]] == ts[..n];
    }
  }

  lemma ItemWritten(cfg: Config, entries: seq<Entry>, n: nat, depth: nat, t: string)
    requires ItemText(cfg, entries, n, depth, t)
    ensures (if Lookup(entries, Index(n)) == Nil then Text("null") else Encode(cfg, Lookup(entries, Index(n)), depth))
      == Text(t)
  {
    LookupPresent(entries, Index(n));
    hide Encode, Lookup;
  }

  lemma LookupPresent(entries: seq<Entry>, key: Key)
    ensures Lookup(entries, key) != Nil ==> exists i :: 0 <= i < |entries| && entries[i].key == key
  {
    if forall i :: 0 <= i < |entries| ==> entries[i].key != key {
      LookupNone(entries, key);
    }
  }

  lemma JoinItem(ts: seq<string>, t: string)
    ensures Commas(ts + [t]) == Commas(ts) + (if ts == [] then "" else ",") + t
  {
    assert (ts + [t])[..|ts|] == ts;
  }

  /** The text of a field. An integer key is written as a string. */
  predicate FieldText(cfg: Config, e: Entry, depth: nat, t: string) {
    && !e.key.OtherKey? && Encode(cfg, e.val, depth).Text?
    && t == (if e.key.Name? then "\"" + TextOf(PiecesOf(e.key.s)) + "\"" else "\"" + cfg.digits(e.key.n) + "\"")
      + (":" + Encode(cfg, e.val, depth).s)
  }

  /** A table with any other key is an object, with its fields in the order of
      the traversal. */
  lemma ObjectEncoded(cfg: Config, entries: seq<Entry>, ts: seq<string>, depth: nat)
    requires entries == [] || exists i :: 0 <= i < |entries| && !(entries[i].key.Index? && entries[i].key.n >= 1)
    requires depth + 1 <= cfg.encodeMaxDepth && |ts| == |entries|
    requires forall i :: 0 <= i < |entries| ==> FieldText(cfg, entries[i], depth + 1, ts[i])
    ensures Encode(cfg, Table(entries), depth) == Text("{" + Commas(ts) + "}")
  {
    NoArray(cfg, entries, depth);
    hide Encode, EncodeFields, Commas, FieldText;
    FieldsEncoded(cfg, entries, |entries|, ts, depth + 1);
    assert ts[..|ts|] == ts;
  }

  lemma NoArray(cfg: Config, entries: seq<Entry>, depth: nat)
    requires entries == [] || exists i :: 0 <= i < |entries| && !(entries[i].key.Index? && entries[i].key.n >= 1)
    requires depth + 1 <= cfg.encodeMaxDepth
    ensures Encode(cfg, Table(entries), depth)
      == Bracketed("{", EncodeFields(cfg, Table(entries), |entries|, depth + 1), "}")
  {
    assert LengthOf(cfg, entries) == if entries == [] then Length(0) else NotArray;
    hide LengthOf, EncodeFields, EncodeItems, Lookup, Bracketed;
  }

  lemma {:induction false} FieldsEncoded(cfg: Config, entries: seq<Entry>, n: nat, ts: seq<string>, depth: nat)
    requires n <= |entries| == |ts| && forall i :: 0 <= i < n ==> FieldText(cfg, entries[i], depth, ts[i])
    ensures EncodeFields(cfg, Table(entries), n, depth) == Text(Commas(ts[..n]))
    decreases n
  {
    hide EncodeFields, Encode, Commas, EncodeKey, FieldText, TextOf, PiecesOf;
    if n == 0 {
      EncodeNothing(cfg, Table(entries), depth);
      JoinNothing();
      assert ts[..0] == [];
    } else {
      FieldsEncoded(cfg, entries, n - 1, ts, depth);
      assert FieldText(cfg, entries[n - 1], depth, ts[n - 1]);
      FieldsLast(cfg, Table(entries), n - 1, depth);
      FieldWritten(cfg, entries[n - 1], depth, ts[n - 1]);
      JoinItem(ts[..n - 1], ts[n - 1]);
      assert ts[..n - 1] + [ts[n - 1]] == ts[..n];
    }
  }

  lemma JoinNothing()
    ensures Commas([]) == ""
  {
  }

  lemma FieldWritten(cfg: Config, e: Entry, depth: nat, t: string)
    requires FieldText(cfg, e, depth, t)
    ensures Join(EncodeKey(cfg, e.key), Encode(cfg, e.val, depth)) == Text(t)
  {
    KeyWritten(cfg, e.key);
    var key := if e.key.Name? then "\"" + TextOf(PiecesOf(e.key.s)) + "\"" else "\"" + cfg.digits(e.key.n) + "\"";
    JoinField(key, Encode(cfg, e.val, depth).s);
    hide Encode, EncodeKey, TextOf, PiecesOf, Join;
  }

  lemma JoinField(key: string, val: string)
    ensures Join(Text(key + ":"), Text(val)) == Text(key + (":" + val))
  {
  }

  lemma KeyWritten(cfg: Config, key: Key)
    requires !key.OtherKey?
    ensures EncodeKey(cfg, key) == Text(
      (if key.Name? then "\"" + TextOf(PiecesOf(key.s)) + "\"" else "\"" + cfg.digits(key.n) + "\"") + ":")
  {
    if key.Name? {
      PiecesWritten(key.s);
    }
  }

  // ----- nesting -----

  function Nest(k: nat): (v: Value)
    ensures k > 0 ==> v.Table?
  {
    if k == 0 then Bool(true) else Table([Entry(Index(1), Nest(k - 1))])
  }

  function Repeat(c: char, k: nat): (s: string)
    ensures |s| == k && forall i :: 0 <= i < k ==> s[i] == c
  {
    seq(k, _ => c)
  }

  /** Tables may nest as deep as the limit says, and no deeper. */
  lemma {:induction false} NestEncoded(cfg: Config, k: nat, depth: nat)
    requires depth <= cfg.encodeMaxDepth
    ensures Encode(cfg, Nest(k), depth) == if depth + k <= cfg.encodeMaxDepth
      then Text(Repeat('[', k) + "true" + Repeat(']', k)) else Failed("excessive nesting")
    decreases k
  {
    hide Encode, Repeat, Nest, LengthOf;
    if k == 0 {
      NestNothing(cfg, depth);
    } else if depth + 1 <= cfg.encodeMaxDepth {
      NestEncoded(cfg, k - 1, depth + 1);
      NestLength(cfg, k);
      NestStep(cfg, k, depth);
      RepeatNext(k);
      Inside(Repeat('[', k - 1), "true", Repeat(']', k - 1));
    } else {
      NestOver(cfg, k, depth);
    }
  }

  lemma NestNothing(cfg: Config, depth: nat)
    ensures Encode(cfg, Nest(0), depth) == Text(Repeat('[', 0) + "true" + Repeat(']', 0))
  {
  }

  lemma NestOver(cfg: Config, k: nat, depth: nat)
    requires k > 0 && depth + 1 > cfg.encodeMaxDepth
    ensures Encode(cfg, Nest(k), depth) == Failed("excessive nesting")
  {
  }

  lemma RepeatNext(k: nat)
    requires k > 0
    ensures Repeat('[', k) == "[" + Repeat('[', k - 1) && Repeat(']', k) == Repeat(']', k - 1) + "]"
  {
  }

  lemma Inside(a: string, b: string, c: string)
    ensures Bracketed("[", Text(a + b + c), "]") == Text("[" + a + b + (c + "]"))
  {
  }

  lemma NestLength(cfg: Config, k: nat)
    requires k > 0
    ensures LengthOf(cfg, Nest(k).entries) == Length(1)
  {
    assert Largest(Nest(k).entries, 1) by {
      assert Nest(k).entries[0].key == Index(1);
    }
    LengthIs(cfg, Nest(k).entries, 1);
  }

  lemma NestStep(cfg: Config, k: nat, depth: nat)
    requires k > 0 && depth + 1 <= cfg.encodeMaxDepth && LengthOf(cfg, Nest(k).entries) == Length(1)
    ensures Encode(cfg, Nest(k), depth) == Bracketed("[", Encode(cfg, Nest(k - 1), depth + 1), "]")
  {
    var v := Nest(k);
    hide LengthOf;
    assert EncodeItems(cfg, v, 0, depth + 1) == Text("");
    assert Lookup(v.entries, Index(1)) == Nest(k - 1) != Nil;
    var inner := Encode(cfg, Nest(k - 1), depth + 1);
    assert EncodeItems(cfg, v, 1, depth + 1) == Join(Join(Text(""), Text("")), inner);
    assert inner.Text? ==> "" + inner.s == inner.s;
  }

  /** Text with more brackets in a row than the limit is an error, whatever comes
      after them. */
  lemma {:induction false} NestRead(cfg: Config, text: string, p: nat, k: nat, depth: nat)
    requires HasAt(text, p, Repeat('[', k + 1)) && p <= |text| && depth + k == cfg.decodeMaxDepth
    ensures DecodeValue(cfg, text, Lex(cfg, text, p), depth)
      == Undecoded("too many nested data structures")
    decreases k
  {
    hide Lex, HasAt;
    assert Repeat('[', k + 1) == "[" + Repeat('[', k);
    HasSplit(text, p, "[", Repeat('[', k));
    HasInside(text, p, "[");
    MarkRead(cfg, text, p, '[');
    if k > 0 {
      NestRead(cfg, text, p + 1, k - 1, depth + 1);
      assert Repeat('[', k) == "[" + Repeat('[', k - 1);
      HasSplit(text, p + 1, "[", Repeat('[', k - 1));
      MarkRead(cfg, text, p + 1, '[');
      ItemsUnfold(cfg, text, Lex(cfg, text, p + 1), [], depth + 1);
    }
  }

  lemma TooDeep(cfg: Config, text: string)
    requires HasAt(text, 0, Repeat('[', cfg.decodeMaxDepth + 1)) && NoZero(text)
    ensures Decode(cfg, text) == Undecoded("too many nested data structures")
  {
    NestRead(cfg, text, 0, cfg.decodeMaxDepth, 0);
  }

  /** Brackets within the limits are read back. */
  lemma NestDecoded(cfg: Config, k: nat)
    requires k <= cfg.encodeMaxDepth && k <= cfg.decodeMaxDepth
    ensures Decode(cfg, Repeat('[', k) + "true" + Repeat(']', k)) == Decoded(Nest(k), 2 * k + 4)
  {
    NestEncoded(cfg, k, 0);
    NestPlain(k);
    RoundTrip(cfg, Nest(k));
  }

  lemma {:induction false} NestPlain(k: nat)
    ensures Plain(Nest(k)) && JsonText.Depth(Nest(k)) == k && Canon(Nest(k)) == Nest(k)
    decreases k
  {
    if k > 0 {
      NestPlain(k - 1);
      NestOne(Nest(k - 1));
    }
  }

  lemma NestOne(inner: Value)
    requires Plain(inner) && Canon(inner) == inner
    ensures var v := Table([Entry(Index(1), inner)]);
      Plain(v) && JsonText.Depth(v) == 1 + JsonText.Depth(inner) && Canon(v) == v
  {
    var v := Table([Entry(Index(1), inner)]);
    assert v.entries[0] == Entry(Index(1), inner);
    assert HasKey(v.entries, Index(1));
    assert IsArray(v.entries);
    hide IsArray, IsObject;
    assert DeepestOf(v, 0) == 0 && DeepestOf(v, 1) == JsonText.Depth(inner);
    CanonItemsNext(v, 0);
    assert Lookup(v.entries, Index(1)) == inner;
    assert CanonItems(v, 0) == [];
  }
}
