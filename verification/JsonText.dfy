/** JSON texts of lua_cjson.c as values: what the encoder writes and what the
    decoder reads. A character stands for a byte. */
module JsonText {
  import opened Texts

  /** Table keys: integers, strings, and all others. */
  datatype Key = Index(n: int) | Name(s: string) | OtherKey(id: int)

  /** A Lua value. `Null` is the null pointer that stands for JSON's null, a
      number is known by an identity, and the entries of a table are in the
      order of its traversal. */
  datatype Value =
    | Nil
    | Null
    | Bool(b: bool)
    | Number(n: int)
    | Str(s: string)
    | Table(entries: seq<Entry>)
    | OtherValue(id: int)

  datatype Entry = Entry(key: Key, val: Value)

  /** The limits, and the foreign functions that print and scan numbers. */
  datatype Config = Config(
    encodeMaxDepth: nat,
    decodeMaxDepth: nat,
    sparseRatio: nat,
    sparseSafe: nat,
    sparseConvert: bool,
    digits: int -> string,
    scan: (string, nat) -> (int, nat))

  datatype Text = Text(s: string) | Failed(message: string)

  // ----- strings -----

  function Hex(n: nat): char
    requires n < 16
  {
    "0123456789abcdef"[n]
  }

  /** The table char2escape; characters without an entry stand for themselves. */
  function Escape(c: char): string {
    if c == '\U{8}' then "\\b"
    else if c == '\t' then "\\t"
    else if c == '\n' then "\\n"
    else if c == '\U{c}' then "\\f"
    else if c == '\r' then "\\r"
    else if c == '\"' then "\\\""
    else if c == '/' then "\\/"
    else if c == '\\' then "\\\\"
    else if c as int < 32 || c as int == 127 then "\\u00" + [Hex(c as int / 16), Hex(c as int % 16)]
    else [c]
  }

  function Escapes(s: string): (r: string)
    ensures |r| <= 6 * |s|
  {
    if s == "" then "" else Escapes(s[..|s| - 1]) + Escape(s[|s| - 1])
  }

  function Quoted(s: string): string {
    "\"" + Escapes(s) + "\""
  }

  // ----- encoding -----

  /** The value of a key, or nil. */
  function Lookup(entries: seq<Entry>, key: Key): (v: Value)
    ensures v == Nil || exists i :: 0 <= i < |entries| && v == entries[i].val
  {
    if entries == [] then Nil
    else if entries[0].key == key then entries[0].val
    else
      var v := Lookup(entries[1..], key);
      assert forall i :: 0 <= i < |entries[1..]| ==> entries[1..][i] == entries[i + 1];
      v
  }

  datatype ArrayLength = Length(n: nat) | NotArray | Sparse

  /** lua_array_length: the largest key when all keys are positive integers. */
  function LengthOf(cfg: Config, entries: seq<Entry>): ArrayLength {
    if exists i :: 0 <= i < |entries| && !(entries[i].key.Index? && entries[i].key.n >= 1) then NotArray
    else
      var max := MaxIndex(entries);
      if cfg.sparseRatio > 0 && max > |entries| * cfg.sparseRatio && max > cfg.sparseSafe then
        if cfg.sparseConvert then NotArray else Sparse
      else Length(max)
  }

  function MaxIndex(entries: seq<Entry>): (max: nat)
    ensures forall i :: 0 <= i < |entries| && entries[i].key.Index? ==> entries[i].key.n <= max
    ensures max == 0 || exists i :: 0 <= i < |entries| && entries[i].key == Index(max)
  {
    if entries == [] then 0
    else
      var last := entries[|entries| - 1].key;
      var max := MaxIndex(entries[..|entries| - 1]);
      if last.Index? && last.n > max then last.n else max
  }

  function Join(a: Text, b: Text): Text {
    if a.Failed? then a else if b.Failed? then b else Text(a.s + b.s)
  }

  /** json_append_data below `depth` tables. */
  function Encode(cfg: Config, v: Value, depth: nat): Text
    decreases v, 1, 0
  {
    match v
    case Str(s) => Text(Quoted(s))
    case Number(n) => Text(cfg.digits(n))
    case Bool(b) => Text(if b then "true" else "false")
    case Nil => Text("null")
    case Null => Text("null")
    case OtherValue(_) => Failed("type not supported")
    case Table(entries) =>
      if depth + 1 > cfg.encodeMaxDepth then Failed("excessive nesting")
      else
        var len := LengthOf(cfg, entries);
        if len == Sparse then Failed("excessively sparse array")
        else if len.Length? && len.n > 0 then Bracketed("[", EncodeItems(cfg, v, len.n, depth + 1), "]")
        else Bracketed("{", EncodeFields(cfg, v, |entries|, depth + 1), "}")
  }

  /** The first `n` items of an array. */
  function EncodeItems(cfg: Config, v: Value, n: nat, depth: nat): Text
    requires v.Table?
    decreases v, 0, n + 1
  {
    if n == 0 then Text("")
    else
      var item := Lookup(v.entries, Index(n));
      Join(Join(EncodeItems(cfg, v, n - 1, depth), Text(if n > 1 then "," else "")),
           if item == Nil then Text("null") else Encode(cfg, item, depth))
  }

  /** The first `n` fields of an object. */
  function EncodeFields(cfg: Config, v: Value, n: nat, depth: nat): Text
    requires v.Table? && n <= |v.entries|
    decreases v, 0, n + 1
  {
    if n == 0 then Text("")
    else
      var e := v.entries[n - 1];
      Join(Join(EncodeFields(cfg, v, n - 1, depth), Text(if n > 1 then "," else "")),
           Join(EncodeKey(cfg, e.key), Encode(cfg, e.val, depth)))
  }

  function Bracketed(open: string, inner: Text, close: string): Text {
    Join(Join(Text(open), inner), Text(close))
  }

  lemma EscapesNext(s: string, i: nat)
    requires i < |s|
    ensures Escapes(s[..i + 1]) == Escapes(s[..i]) + Escape(s[i])
    ensures |Escape(s[i])| <= 1 ==> Escape(s[i]) == [s[i]]
    ensures 1 <= |Escape(s[i])| <= 6
  {
    assert s[..i + 1][..i] == s[..i];
  }

  lemma EscapesNothing()
    ensures Escapes("") == ""
  {
  }

  /** The last item, whose text may be an error. */
  lemma ItemsLast(cfg: Config, v: Value, i: nat, depth: nat)
    requires v.Table? && i > 0 && EncodeItems(cfg, v, i - 1, depth).Text?
    ensures var item := Lookup(v.entries, Index(i));
      EncodeItems(cfg, v, i, depth) == Join(Text(EncodeItems(cfg, v, i - 1, depth).s + if i > 1 then "," else ""),
        if item == Nil then Text("null") else Encode(cfg, item, depth))
    ensures Lookup(v.entries, Index(i)) != Nil ==> Lookup(v.entries, Index(i)) < v
  {
  }

  lemma FieldsLast(cfg: Config, v: Value, i: nat, depth: nat)
    requires v.Table? && i < |v.entries| && EncodeFields(cfg, v, i, depth).Text?
    ensures EncodeFields(cfg, v, i + 1, depth) == Join(Text(EncodeFields(cfg, v, i, depth).s + if i > 0 then "," else ""),
      Join(EncodeKey(cfg, v.entries[i].key), Encode(cfg, v.entries[i].val, depth)))
  {
  }

  /** The first error is that of the whole. */
  lemma {:induction false} ItemsFail(cfg: Config, v: Value, n: nat, k: nat, depth: nat)
    requires v.Table? && k <= n && EncodeItems(cfg, v, k, depth).Failed?
    ensures EncodeItems(cfg, v, n, depth) == EncodeItems(cfg, v, k, depth)
    decreases n
  {
    if k < n {
      ItemsFail(cfg, v, n - 1, k, depth);
    }
  }

  lemma {:induction false} FieldsFail(cfg: Config, v: Value, n: nat, k: nat, depth: nat)
    requires v.Table? && k <= n <= |v.entries| && EncodeFields(cfg, v, k, depth).Failed?
    ensures EncodeFields(cfg, v, n, depth) == EncodeFields(cfg, v, k, depth)
    decreases n
  {
    if k < n {
      FieldsFail(cfg, v, n - 1, k, depth);
    }
  }

  function EncodeKey(cfg: Config, key: Key): Text {
    match key
    case Index(n) => Text("\"" + cfg.digits(n) + "\":")
    case Name(s) => Text(Quoted(s) + ":")
    case OtherKey(_) => Failed("table key must be a number or string")
  }

  // ----- tokens -----

  datatype Token =
    | ObjBegin | ObjEnd | ArrBegin | ArrEnd | Colon | Comma | End
    | StringToken(s: string) | NumberToken(n: int) | BoolToken(b: bool) | NullToken
    | ErrorToken(message: string)

  /** A token, and where the text goes on. */
  datatype Lexed = Lexed(tok: Token, next: nat)

  function HexValue(c: char): (n: int)
    ensures -1 <= n < 16
  {
    if '0' <= c <= '9' then c as int - '0' as int
    else if 'a' <= c <= 'f' then c as int - 'a' as int + 10
    else if 'A' <= c <= 'F' then c as int - 'A' as int + 10
    else -1
  }

  /** decode_hex4, or -1. */
  function Hex4(text: string, p: nat): (n: int)
    ensures -1 <= n < 0x1_0000 && (n >= 0 ==> p + 4 <= |text|)
  {
    var a, b, c, d := HexValue(At(text, p)), HexValue(At(text, p + 1)), HexValue(At(text, p + 2)), HexValue(At(text, p + 3));
    if a < 0 || b < 0 || c < 0 || d < 0 then -1 else a * 4096 + b * 256 + c * 16 + d
  }

  /** codepoint_to_utf8, for the code points that an escape can denote. */
  function Utf8(cp: nat): (s: string)
    requires cp <= 0x10_FFFF
    ensures 1 <= |s| <= 4 && (cp < 0x1_0000 ==> |s| <= 3)
  {
    if cp <= 0x7F then [cp as char]
    else if cp <= 0x7FF then [(cp / 0x40 + 0xC0) as char, (cp % 0x40 + 0x80) as char]
    else if cp <= 0xFFFF then [(cp / 0x1000 + 0xE0) as char, (cp / 0x40 % 0x40 + 0x80) as char, (cp % 0x40 + 0x80) as char]
    else
      [(cp / 0x4_0000 + 0xF0) as char, (cp / 0x1000 % 0x40 + 0x80) as char,
       (cp / 0x40 % 0x40 + 0x80) as char, (cp % 0x40 + 0x80) as char]
  }

  datatype Escaped = Bytes(s: string, len: nat) | BadEscape

  /** json_append_unicode_escape: one escape, or two that form a surrogate pair. */
  function UnicodeEscape(text: string, p: nat): (e: Escaped)
    ensures e.Bytes? ==> |e.s| < e.len && p + e.len <= |text|
  {
    var cp := Hex4(text, p + 2);
    if cp < 0 then BadEscape
    else if cp / 0x800 != 0x1B then Bytes(Utf8(cp), 6)
    else if cp / 0x400 != 0x36 || At(text, p + 6) != '\\' || At(text, p + 7) != 'u' then BadEscape
    else
      var low := Hex4(text, p + 8);
      if low < 0 || low / 0x400 != 0x37 then BadEscape
      else Bytes(Utf8((cp % 0x400) * 0x400 + low % 0x400 + 0x1_0000), 12)
  }

  /** The table escape2char; zero is an error. */
  function EscapeChar(c: char): char {
    if c == '\"' || c == '\\' || c == '/' || c == 'u' then c
    else if c == 'b' then '\U{8}'
    else if c == 't' then '\t'
    else if c == 'n' then '\n'
    else if c == 'f' then '\U{c}'
    else if c == 'r' then '\r'
    else '\0'
  }

  function Prefixed(s: string, l: Lexed): Lexed {
    if l.tok.StringToken? then Lexed(StringToken(s + l.tok.s), l.next) else l
  }

  /** json_next_string_token, behind the quote. */
  function LexString(text: string, p: nat): (l: Lexed)
    requires p <= |text|
    ensures l.tok.StringToken? || l.tok.ErrorToken?
    ensures p <= l.next <= |text| && (l.tok.StringToken? ==> p + |l.tok.s| < l.next)
    decreases |text| - p
  {
    var ch := At(text, p);
    if ch == '\"' then Lexed(StringToken(""), p + 1)
    else if ch == '\0' then Lexed(ErrorToken("unexpected end of string"), p)
    else if ch != '\\' then Prefixed([ch], LexString(text, p + 1))
    else
      var e := EscapeChar(At(text, p + 1));
      if e == 'u' then
        var u := UnicodeEscape(text, p);
        if u.BadEscape? then Lexed(ErrorToken("invalid unicode escape code"), p)
        else Prefixed(u.s, LexString(text, p + u.len))
      else if e == '\0' then Lexed(ErrorToken("invalid escape code"), p)
      else Prefixed([e], LexString(text, p + 2))
  }

  predicate IsWhite(c: char) {
    c == ' ' || c == '\t' || c == '\n' || c == '\r'
  }

  function SkipWhite(text: string, p: nat): (r: nat)
    requires p <= |text|
    ensures p <= r <= |text| && !IsWhite(At(text, r))
    decreases |text| - p
  {
    if IsWhite(At(text, p)) then SkipWhite(text, p + 1) else p
  }

  /** Whether a number may start here that strict JSON does not allow. */
  predicate InvalidNumber(text: string, p: nat) {
    At(text, p) == '+' ||
    (var q := if At(text, p) == '-' then p + 1 else p;
     if At(text, q) == '0' then At(text, q + 1) == 'x' || At(text, q + 1) == 'X' || '0' <= At(text, q + 1) <= '9'
     else At(text, q) > '9' && (StartsNoCase(text, q, "inf") || StartsNoCase(text, q, "nan")))
  }

  predicate StartsNoCase(text: string, p: nat, word: string)
    requires |word| == 3
  {
    Lower(At(text, p)) == word[0] && Lower(At(text, p + 1)) == word[1] && Lower(At(text, p + 2)) == word[2]
  }

  function Lower(c: char): char {
    if 'A' <= c <= 'Z' then (c as int + 32) as char else c
  }

  /** json_next_number_token. */
  function LexNumber(cfg: Config, text: string, p: nat): (l: Lexed)
    requires p <= |text|
    ensures p <= l.next <= |text| && (l.tok.NumberToken? ==> l.next > p)
    ensures l.tok.NumberToken? || l.tok.ErrorToken?
  {
    var (n, end) := cfg.scan(text, p);
    if end <= p || end > |text| then Lexed(ErrorToken("invalid number"), p) else Lexed(NumberToken(n), end)
  }

  /** json_next_token, with numbers outside JSON allowed, as is the default. */
  function Lex(cfg: Config, text: string, p0: nat): (l: Lexed)
    requires p0 <= |text|
    ensures p0 <= l.next <= |text|
    ensures !l.tok.ErrorToken? && l.tok != End ==> p0 < l.next
  {
    var p := SkipWhite(text, p0);
    var ch := At(text, p);
    if ch == '\0' then Lexed(End, p)
    else if ch == '{' then Lexed(ObjBegin, p + 1)
    else if ch == '}' then Lexed(ObjEnd, p + 1)
    else if ch == '[' then Lexed(ArrBegin, p + 1)
    else if ch == ']' then Lexed(ArrEnd, p + 1)
    else if ch == ',' then Lexed(Comma, p + 1)
    else if ch == ':' then Lexed(Colon, p + 1)
    else if ch == '\"' then LexString(text, p + 1)
    else if ch == '-' || '0' <= ch <= '9' then LexNumber(cfg, text, p)
    else if HasAt(text, p, "true") then Lexed(BoolToken(true), p + 4)
    else if HasAt(text, p, "false") then Lexed(BoolToken(false), p + 5)
    else if HasAt(text, p, "null") then Lexed(NullToken, p + 4)
    else if ch in "iInN+tf" && InvalidNumber(text, p) then LexNumber(cfg, text, p)
    else Lexed(ErrorToken("invalid token"), p)
  }

  // ----- decoding -----

  datatype Decoded = Decoded(v: Value, next: nat) | Undecoded(message: string)

  /** A table after an assignment: a new key comes last. */
  function SetEntry(entries: seq<Entry>, key: Key, val: Value): seq<Entry> {
    if exists i :: 0 <= i < |entries| && entries[i].key == key then
      seq(|entries|, i requires 0 <= i < |entries| => if entries[i].key == key then Entry(key, val) else entries[i])
    else entries + [Entry(key, val)]
  }

  /** json_process_value, below `depth` tables. */
  function DecodeValue(cfg: Config, text: string, l: Lexed, depth: nat): (d: Decoded)
    requires l.next <= |text|
    ensures d.Decoded? ==> l.next <= d.next <= |text|
    decreases |text| - l.next, 1
  {
    match l.tok
    case StringToken(s) => Decoded(Str(s), l.next)
    case NumberToken(n) => Decoded(Number(n), l.next)
    case BoolToken(b) => Decoded(Bool(b), l.next)
    case NullToken => Decoded(Null, l.next)
    case ObjBegin =>
      if depth + 1 > cfg.decodeMaxDepth then Undecoded("too many nested data structures")
      else
        var first := Lex(cfg, text, l.next);
        if first.tok == ObjEnd then Decoded(Table([]), first.next)
        else if first.tok == End || first.tok.ErrorToken? then Undecoded("Expected object key string")
        else DecodeFields(cfg, text, first, [], depth + 1)
    case ArrBegin =>
      if depth + 1 > cfg.decodeMaxDepth then Undecoded("too many nested data structures")
      else
        var first := Lex(cfg, text, l.next);
        if first.tok == ArrEnd then Decoded(Table([]), first.next)
        else if first.tok == End || first.tok.ErrorToken? then Undecoded("Expected value")
        else DecodeItems(cfg, text, first, [], depth + 1)
    case _ => Undecoded("Expected value")
  }

  /** The loop of json_parse_array_context, at an item. */
  function DecodeItems(cfg: Config, text: string, l: Lexed, entries: seq<Entry>, depth: nat): (d: Decoded)
    requires l.next <= |text|
    ensures d.Decoded? ==> l.next <= d.next <= |text|
    decreases |text| - l.next, 2
  {
    var d := DecodeValue(cfg, text, l, depth);
    if d.Undecoded? then d
    else
      var now := SetEntry(entries, Index(|entries| + 1), d.v);
      var sep := Lex(cfg, text, d.next);
      if sep.tok == ArrEnd then Decoded(Table(now), sep.next)
      else if sep.tok != Comma then Undecoded("Expected comma or array end")
      else
        var item := Lex(cfg, text, sep.next);
        DecodeItems(cfg, text, item, now, depth)
  }

  /** The loop of json_parse_object_context, at a key. */
  function DecodeFields(cfg: Config, text: string, l: Lexed, entries: seq<Entry>, depth: nat): (d: Decoded)
    requires l.next <= |text|
    ensures d.Decoded? ==> l.next <= d.next <= |text|
    decreases |text| - l.next, 2
  {
    if !l.tok.StringToken? then Undecoded("Expected object key string")
    else
      var colon := Lex(cfg, text, l.next);
      if colon.tok != Colon then Undecoded("Expected colon")
      else
        var at := Lex(cfg, text, colon.next);
        var d := DecodeValue(cfg, text, at, depth);
        if d.Undecoded? then d
        else
          var now := SetEntry(entries, Name(l.tok.s), d.v);
          var sep := Lex(cfg, text, d.next);
          if sep.tok == ObjEnd then Decoded(Table(now), sep.next)
          else if sep.tok != Comma then Undecoded("Expected comma or object end")
          else DecodeFields(cfg, text, Lex(cfg, text, sep.next), now, depth)
  }

  lemma ArrayStarts(cfg: Config, text: string, p: nat, depth: nat, first: Lexed, whole: Decoded)
    requires p <= |text| && 0 < depth <= cfg.decodeMaxDepth && first == Lex(cfg, text, p) && first.tok != ArrEnd
    requires whole == DecodeValue(cfg, text, Lexed(ArrBegin, p), depth - 1)
    ensures whole == DecodeItems(cfg, text, first, [], depth)
    ensures first.next == p ==> first.tok == End || first.tok.ErrorToken?
  {
    hide Lex;
  }

  lemma ObjectStarts(cfg: Config, text: string, p: nat, depth: nat, first: Lexed, whole: Decoded)
    requires p <= |text| && 0 < depth <= cfg.decodeMaxDepth && first == Lex(cfg, text, p) && first.tok != ObjEnd
    requires whole == DecodeValue(cfg, text, Lexed(ObjBegin, p), depth - 1)
    ensures whole == DecodeFields(cfg, text, first, [], depth)
    ensures first.next == p ==> first.tok == End || first.tok.ErrorToken?
  {
    hide Lex;
  }

  /** A round of the loop over the items, as one equation. */
  lemma ItemsUnfold(cfg: Config, text: string, l: Lexed, entries: seq<Entry>, depth: nat)
    requires l.next <= |text|
    ensures DecodeItems(cfg, text, l, entries, depth) == (
      var d := DecodeValue(cfg, text, l, depth);
      if d.Undecoded? then d
      else ItemsAfter(cfg, text, d.next, SetEntry(entries, Index(|entries| + 1), d.v), depth))
  {
  }

  function ItemsAfter(cfg: Config, text: string, p: nat, now: seq<Entry>, depth: nat): Decoded
    requires p <= |text|
  {
    var sep := Lex(cfg, text, p);
    if sep.tok == ArrEnd then Decoded(Table(now), sep.next)
    else if sep.tok != Comma then Undecoded("Expected comma or array end")
    else DecodeItems(cfg, text, Lex(cfg, text, sep.next), now, depth)
  }

  lemma FieldsUnfold(cfg: Config, text: string, l: Lexed, entries: seq<Entry>, depth: nat)
    requires l.next <= |text|
    ensures !l.tok.StringToken? ==> DecodeFields(cfg, text, l, entries, depth) == Undecoded("Expected object key string")
    ensures l.tok.StringToken? ==>
      DecodeFields(cfg, text, l, entries, depth) == FieldAfter(cfg, text, l.next, l.tok.s, entries, depth)
  {
  }

  function FieldAfter(cfg: Config, text: string, p: nat, key: string, entries: seq<Entry>, depth: nat): Decoded
    requires p <= |text|
  {
    var colon := Lex(cfg, text, p);
    if colon.tok != Colon then Undecoded("Expected colon")
    else
      var d := DecodeValue(cfg, text, Lex(cfg, text, colon.next), depth);
      if d.Undecoded? then d else FieldsAfter(cfg, text, d.next, SetEntry(entries, Name(key), d.v), depth)
  }

  function FieldsAfter(cfg: Config, text: string, p: nat, now: seq<Entry>, depth: nat): Decoded
    requires p <= |text|
  {
    var sep := Lex(cfg, text, p);
    if sep.tok == ObjEnd then Decoded(Table(now), sep.next)
    else if sep.tok != Comma then Undecoded("Expected comma or object end")
    else DecodeFields(cfg, text, Lex(cfg, text, sep.next), now, depth)
  }

  /** json_decode. */
  function Decode(cfg: Config, text: string): Decoded {
    if |text| >= 2 && (text[0] == '\0' || text[1] == '\0') then Undecoded("JSON parser does not support UTF-16 or UTF-32")
    else
      var d := DecodeValue(cfg, text, Lex(cfg, text, 0), 0);
      if d.Undecoded? then d
      else if Lex(cfg, text, d.next).tok != End then Undecoded("Expected the end")
      else d
  }

  // ----- the round trip -----

  /** Each escape is read back as its character. */
  lemma EscapeRead(text: string, p: nat, c: char, next: Lexed)
    requires HasAt(text, p, Escape(c)) && next == LexString(text, p + |Escape(c)|)
    ensures LexString(text, p) == Prefixed([c], next)
  {
    hide Escape, HasAt, LexString, At, EscapeChar;
    EscapeForm(c);
    var e := Escape(c);
    HasInside(text, p, e);
    HasNth(text, p, e, 0);
    LexCases(text, p);
    if |e| == 2 {
      HasNth(text, p, e, 1);
    } else if |e| == 6 {
      HasNth(text, p, e, 1);
      ControlRead(text, p, c);
    }
  }

  lemma LexCases(text: string, p: nat)
    requires p < |text|
    ensures At(text, p) != '\"' && At(text, p) != '\\' && At(text, p) != '\0' ==>
      LexString(text, p) == Prefixed([At(text, p)], LexString(text, p + 1))
    ensures At(text, p) == '\\' && EscapeChar(At(text, p + 1)) != 'u' && EscapeChar(At(text, p + 1)) != '\0' ==>
      p + 2 <= |text| && LexString(text, p) == Prefixed([EscapeChar(At(text, p + 1))], LexString(text, p + 2))
    ensures At(text, p) == '\\' && At(text, p + 1) == 'u' && UnicodeEscape(text, p).Bytes? ==>
      LexString(text, p) == Prefixed(UnicodeEscape(text, p).s, LexString(text, p + UnicodeEscape(text, p).len))
  {
  }

  /** An escape has one character, or a backslash first. */
  lemma EscapeForm(c: char)
    ensures |Escape(c)| == 1 || |Escape(c)| == 2 || |Escape(c)| == 6
    ensures |Escape(c)| == 1 ==> Escape(c)[0] == c && c != '\"' && c != '\\' && c != '\0'
    ensures |Escape(c)| == 2 ==> Escape(c)[0] == '\\' && EscapeChar(Escape(c)[1]) == c && c != 'u' && c != '\0'
    ensures |Escape(c)| == 6 ==> Escape(c)[0] == '\\' && Escape(c)[1] == 'u'
  {
  }

  lemma ControlRead(text: string, p: nat, c: char)
    requires HasAt(text, p, Escape(c)) && |Escape(c)| == 6
    ensures UnicodeEscape(text, p) == Bytes([c], 6)
  {
    var e := Escape(c);
    HasNth(text, p, e, 2);
    HasNth(text, p, e, 3);
    HasNth(text, p, e, 4);
    HasNth(text, p, e, 5);
    var n := c as int;
    HexBack(n / 16);
    HexBack(n % 16);
    assert Hex4(text, p + 2) == n / 16 * 16 + n % 16 == n;
  }

  lemma HexBack(n: nat)
    requires n < 16
    ensures HexValue(Hex(n)) == n
  {
  }

  lemma StringRead(text: string, p: nat, s: string)
    requires HasAt(text, p, Escapes(s) + "\"")
    ensures LexString(text, p) == Lexed(StringToken(s), p + |Escapes(s)| + 1)
  {
    hide LexString, Escapes;
    HasSplit(text, p, Escapes(s), "\"");
    var q := p + |Escapes(s)|;
    HasFirst(text, q, "\"");
    LexQuote(text, q);
    EscapesRead(text, p, s, LexString(text, q));
    assert s + "" == s;
  }

  lemma LexQuote(text: string, p: nat)
    requires p < |text| && At(text, p) == '\"'
    ensures LexString(text, p) == Lexed(StringToken(""), p + 1)
  {
  }

  lemma LexQuoted(cfg: Config, text: string, p: nat)
    requires HasAt(text, p, "\"")
    ensures p < |text| && Lex(cfg, text, p) == LexString(text, p + 1)
  {
    HasFirst(text, p, "\"");
    hide LexString;
  }

  lemma PrefixedTwice(a: string, b: string, l: Lexed)
    ensures Prefixed(a, Prefixed(b, l)) == Prefixed(a + b, l)
  {
    if l.tok.StringToken? {
      assert a + (b + l.tok.s) == a + b + l.tok.s;
    }
  }

  lemma {:induction false} EscapesRead(text: string, p: nat, s: string, next: Lexed)
    requires HasAt(text, p, Escapes(s)) && next == LexString(text, p + |Escapes(s)|)
    ensures LexString(text, p) == Prefixed(s, next)
    decreases |s|
  {
    hide LexString, Escape, At;
    if s == "" {
      PrefixedNothing(next);
    } else {
      var t, c := s[..|s| - 1], s[|s| - 1];
      var q := p + |Escapes(t)|;
      HasSplit(text, p, Escapes(t), Escape(c));
      EscapeRead(text, q, c, next);
      EscapesRead(text, p, t, LexString(text, q));
      PrefixedTwice(t, [c], next);
      assert s == t + [c];
    }
  }

  lemma PrefixedNothing(l: Lexed)
    ensures Prefixed("", l) == l
  {
    if l.tok.StringToken? {
      assert "" + l.tok.s == l.tok.s;
    }
  }

  lemma QuotedRead(cfg: Config, text: string, p: nat, s: string)
    requires HasAt(text, p, Quoted(s))
    ensures Lex(cfg, text, p) == Lexed(StringToken(s), p + |Quoted(s)|)
  {
    assert Quoted(s) == "\"" + (Escapes(s) + "\"");
    hide Lex, LexString, Escapes, HasAt;
    HasSplit(text, p, "\"", Escapes(s) + "\"");
    LexQuoted(cfg, text, p);
    StringRead(text, p + 1, s);
  }

  /** A token of one character. */
  lemma MarkRead(cfg: Config, text: string, p: nat, mark: char)
    requires HasAt(text, p, [mark]) && mark in "{}[],:"
    ensures Lex(cfg, text, p).next == p + 1
    ensures Lex(cfg, text, p).tok == (
      if mark == '{' then ObjBegin else if mark == '}' then ObjEnd else if mark == '[' then ArrBegin
      else if mark == ']' then ArrEnd else if mark == ',' then Comma else Colon)
  {
    HasFirst(text, p, [mark]);
  }

  /** The values that have a text of their own: no numbers, integer keys only in
      arrays without holes, and each key once. */
  predicate Plain(v: Value)
    decreases v, 1
  {
    match v
    case Str(_) | Bool(_) | Null => true
    case Table(entries) => (IsArray(entries) || IsObject(entries)) && forall i :: 0 <= i < |entries| ==> Plain(entries[i].val)
    case _ => false
  }

  /** The keys are 1 to n, in any order. */
  predicate IsArray(entries: seq<Entry>) {
    && |entries| > 0
    && (forall i :: 0 <= i < |entries| ==> entries[i].key.Index? && 1 <= entries[i].key.n <= |entries|)
    && (forall n :: 1 <= n <= |entries| ==> HasKey(entries, Index(n)))
  }

  predicate IsObject(entries: seq<Entry>) {
    && (forall i :: 0 <= i < |entries| ==> entries[i].key.Name?)
    && (forall i, j :: 0 <= i < j < |entries| ==> entries[i].key != entries[j].key)
  }

  predicate HasKey(entries: seq<Entry>, key: Key) {
    exists i :: 0 <= i < |entries| && entries[i].key == key
  }

  /** How deep tables nest. */
  function Depth(v: Value): nat
    decreases v, 0
  {
    if v.Table? then 1 + DeepestOf(v, |v.entries|) else 0
  }

  function DeepestOf(v: Value, n: nat): (d: nat)
    requires v.Table? && n <= |v.entries|
    decreases v, 0, n
  {
    if n == 0 then 0
    else
      var a, b := DeepestOf(v, n - 1), Depth(v.entries[n - 1].val);
      if a > b then a else b
  }

  /** The value that is read back: the items of an array are in the order of
      their keys. */
  function Canon(v: Value): Value
    decreases v, 1
  {
    if !v.Table? then v
    else if IsArray(v.entries) then Table(CanonItems(v, |v.entries|))
    else Table(CanonFields(v, |v.entries|))
  }

  function CanonItems(v: Value, n: nat): (entries: seq<Entry>)
    requires v.Table? && IsArray(v.entries) && n <= |v.entries|
    ensures |entries| == n
    decreases v, 0, n
  {
    if n == 0 then []
    else
      LookupHas(v.entries, Index(n));
      CanonItems(v, n - 1) + [Entry(Index(n), Canon(Lookup(v.entries, Index(n))))]
  }

  function CanonFields(v: Value, n: nat): (entries: seq<Entry>)
    requires v.Table? && n <= |v.entries|
    ensures |entries| == n
    decreases v, 0, n
  {
    if n == 0 then []
    else CanonFields(v, n - 1) + [Entry(v.entries[n - 1].key, Canon(v.entries[n - 1].val))]
  }

  lemma LookupHas(entries: seq<Entry>, key: Key)
    requires HasKey(entries, key)
    ensures exists i :: 0 <= i < |entries| && Lookup(entries, key) == entries[i].val && entries[i].key == key
  {
    if entries[0].key != key {
      var i :| 0 <= i < |entries| && entries[i].key == key;
      assert entries[1..][i - 1].key == key;
      LookupHas(entries[1..], key);
      var j :| 0 <= j < |entries[1..]| && Lookup(entries[1..], key) == entries[1..][j].val && entries[1..][j].key == key;
      assert entries[j + 1].key == key;
    }
  }

  // ----- what a plain value looks like -----

  lemma ArrayLengthIs(cfg: Config, entries: seq<Entry>)
    ensures IsArray(entries) ==> LengthOf(cfg, entries) == Length(|entries|)
    ensures IsObject(entries) ==> LengthOf(cfg, entries) == if entries == [] then Length(0) else NotArray
  {
    if IsArray(entries) {
      assert HasKey(entries, Index(|entries|));
      if cfg.sparseRatio > 0 {
        assert |entries| * cfg.sparseRatio >= |entries|;
      }
    } else if IsObject(entries) && entries != [] {
      assert !entries[0].key.Index?;
    }
  }

  lemma DepthInside(v: Value, i: nat)
    requires v.Table? && i < |v.entries|
    ensures Depth(v.entries[i].val) < Depth(v)
  {
    DeepestIs(v, |v.entries|, i);
  }

  lemma {:induction false} DeepestIs(v: Value, n: nat, i: nat)
    requires v.Table? && i < n <= |v.entries|
    ensures Depth(v.entries[i].val) <= DeepestOf(v, n)
    decreases n
  {
    if i < n - 1 {
      DeepestIs(v, n - 1, i);
    }
  }

  lemma {:induction false} CanonItemsKeys(v: Value, n: nat)
    requires v.Table? && IsArray(v.entries) && n <= |v.entries|
    ensures forall i :: 0 <= i < n ==> CanonItems(v, n)[i].key == Index(i + 1)
    decreases n
  {
    if n > 0 {
      CanonItemsKeys(v, n - 1);
    }
  }

  lemma {:induction false} CanonFieldsKeys(v: Value, n: nat)
    requires v.Table? && n <= |v.entries|
    ensures forall i :: 0 <= i < n ==> CanonFields(v, n)[i] == Entry(v.entries[i].key, Canon(v.entries[i].val))
    decreases n
  {
    if n > 0 {
      CanonFieldsKeys(v, n - 1);
    }
  }

  /** Reading back keeps every entry: each key has what its value is read back as. */
  lemma CanonKeeps(v: Value, key: Key)
    requires v.Table? && Plain(v)
    ensures Canon(v).Table? && |Canon(v).entries| == |v.entries|
    ensures HasKey(Canon(v).entries, key) <==> HasKey(v.entries, key)
    ensures Lookup(Canon(v).entries, key) == Canon(Lookup(v.entries, key))
  {
    if IsArray(v.entries) {
      CanonItemsKeys(v, |v.entries|);
      if key.Index? && 1 <= key.n <= |v.entries| {
        assert Canon(v).entries[key.n - 1].key == key;
        CanonItemsNth(v, |v.entries|, key.n);
        LookupNth(Canon(v).entries, key.n - 1);
      } else {
        assert forall i :: 0 <= i < |v.entries| ==> Canon(v).entries[i].key == Index(i + 1);
        LookupNone(v.entries, key);
        LookupNone(Canon(v).entries, key);
      }
    } else {
      CanonFieldsKeys(v, |v.entries|);
      if i :| 0 <= i < |v.entries| && v.entries[i].key == key {
        assert Canon(v).entries[i].key == key;
        LookupNth(v.entries, i);
        LookupNth(Canon(v).entries, i);
      } else {
        LookupNone(v.entries, key);
        LookupNone(Canon(v).entries, key);
      }
    }
  }

  lemma {:induction false} CanonItemsNth(v: Value, n: nat, i: nat)
    requires v.Table? && IsArray(v.entries) && 1 <= i <= n <= |v.entries|
    ensures CanonItems(v, n)[i - 1].val == Canon(Lookup(v.entries, Index(i)))
    decreases n
  {
    if i < n {
      CanonItemsNth(v, n - 1, i);
    }
  }

  lemma {:induction false} LookupNth(entries: seq<Entry>, i: nat)
    requires i < |entries| && forall j, k :: 0 <= j < k < |entries| ==> entries[j].key != entries[k].key
    ensures Lookup(entries, entries[i].key) == entries[i].val
    decreases |entries|
  {
    if i > 0 {
      assert entries[1..][i - 1] == entries[i];
      LookupNth(entries[1..], i - 1);
    }
  }

  lemma {:induction false} LookupNone(entries: seq<Entry>, key: Key)
    requires !HasKey(entries, key)
    ensures Lookup(entries, key) == Nil
    decreases |entries|
  {
    if entries != [] {
      assert forall i :: 0 <= i < |entries[1..]| ==> entries[1..][i] == entries[i + 1];
      LookupNone(entries[1..], key);
    }
  }

  /** The `n`-th item of an array is plain and less deep. */
  lemma ItemPlain(v: Value, n: nat)
    requires v.Table? && Plain(v) && IsArray(v.entries) && 1 <= n <= |v.entries|
    ensures var item := Lookup(v.entries, Index(n)); item != Nil && Plain(item) && Depth(item) < Depth(v) && item < v
  {
    assert HasKey(v.entries, Index(n));
    LookupHas(v.entries, Index(n));
    var i :| 0 <= i < |v.entries| && Lookup(v.entries, Index(n)) == v.entries[i].val;
    DepthInside(v, i);
    assert Plain(v.entries[i].val);
  }

  // ----- reading it -----

  /** At `p` in `text` is the text of `v`, of a plain value within the limits. */
  predicate Written(cfg: Config, text: string, p: nat, v: Value, de: nat, dd: nat) {
    && Plain(v) && de + Depth(v) <= cfg.encodeMaxDepth && dd + Depth(v) <= cfg.decodeMaxDepth
    && Encode(cfg, v, de).Text? && HasAt(text, p, Encode(cfg, v, de).s)
  }

  predicate ReadAs(cfg: Config, text: string, p: nat, v: Value, de: nat, dd: nat)
    requires Encode(cfg, v, de).Text? && p <= |text|
  {
    DecodeValue(cfg, text, Lex(cfg, text, p), dd) == Decoded(Canon(v), p + |Encode(cfg, v, de).s|)
  }

  lemma {:induction false} ItemsWritten(cfg: Config, v: Value, n: nat, k: nat, de: nat)
    requires v.Table? && k <= n && EncodeItems(cfg, v, n, de).Text?
    ensures EncodeItems(cfg, v, k, de).Text? && EncodeItems(cfg, v, k, de).s <= EncodeItems(cfg, v, n, de).s
    decreases n
  {
    if k < n {
      ItemsWritten(cfg, v, n - 1, k, de);
    }
  }

  lemma EncodeItemsNext(cfg: Config, v: Value, k: nat, de: nat)
    requires v.Table? && Lookup(v.entries, Index(k + 1)) != Nil
    ensures EncodeItems(cfg, v, k + 1, de).Text?
      <==> EncodeItems(cfg, v, k, de).Text? && Encode(cfg, Lookup(v.entries, Index(k + 1)), de).Text?
    ensures EncodeItems(cfg, v, k + 1, de).Text? ==>
      EncodeItems(cfg, v, k + 1, de).s
        == EncodeItems(cfg, v, k, de).s + (if k > 0 then "," else "") + Encode(cfg, Lookup(v.entries, Index(k + 1)), de).s
  {
  }

  /** Where the item `k` + 1 is. */
  lemma ItemAt(cfg: Config, text: string, p: nat, v: Value, n: nat, k: nat, de: nat)
    requires v.Table? && k < n && Lookup(v.entries, Index(k + 1)) != Nil
    requires EncodeItems(cfg, v, n, de).Text? && HasAt(text, p, EncodeItems(cfg, v, n, de).s)
    ensures EncodeItems(cfg, v, k, de).Text? && EncodeItems(cfg, v, k + 1, de).Text?
    ensures Encode(cfg, Lookup(v.entries, Index(k + 1)), de).Text?
    ensures HasAt(text, p + |EncodeItems(cfg, v, k, de).s| + Comma1(k), Encode(cfg, Lookup(v.entries, Index(k + 1)), de).s)
    ensures p + |EncodeItems(cfg, v, k + 1, de).s|
         == p + |EncodeItems(cfg, v, k, de).s| + Comma1(k) + |Encode(cfg, Lookup(v.entries, Index(k + 1)), de).s|
    ensures k > 0 ==> HasAt(text, p + |EncodeItems(cfg, v, k, de).s|, ",")
  {
    hide EncodeItems, Encode, HasAt;
    ItemsWritten(cfg, v, n, k + 1, de);
    EncodeItemsNext(cfg, v, k, de);
    var sofar, comma, item := EncodeItems(cfg, v, k, de).s, if k > 0 then "," else "", Encode(cfg, Lookup(v.entries, Index(k + 1)), de).s;
    HasPrefix(text, p, EncodeItems(cfg, v, n, de).s, EncodeItems(cfg, v, k + 1, de).s);
    HasSplit(text, p, sofar + comma, item);
    HasSplit(text, p, sofar, comma);
  }

  /** The length of the comma before the item `k` + 1. */
  function Comma1(k: nat): nat {
    if k > 0 then 1 else 0
  }

  lemma SetNew(entries: seq<Entry>, key: Key, val: Value)
    requires forall i :: 0 <= i < |entries| ==> entries[i].key != key
    ensures SetEntry(entries, key, val) == entries + [Entry(key, val)]
  {
  }

  /** One round of the loop over the items, up to the next item or the end. */
  lemma DecodeItemsStep(cfg: Config, text: string, l: Lexed, entries: seq<Entry>, depth: nat, val: Value, q: nat)
    requires l.next <= |text| && q <= |text| && DecodeValue(cfg, text, l, depth) == Decoded(val, q)
    requires forall i :: 0 <= i < |entries| ==> entries[i].key != Index(|entries| + 1)
    ensures HasAt(text, q, "]") ==>
      DecodeItems(cfg, text, l, entries, depth) == Decoded(Table(entries + [Entry(Index(|entries| + 1), val)]), q + 1)
    ensures HasAt(text, q, ",") ==> q < |text|
    ensures HasAt(text, q, ",") ==>
      DecodeItems(cfg, text, l, entries, depth)
      == DecodeItems(cfg, text, Lex(cfg, text, q + 1), entries + [Entry(Index(|entries| + 1), val)], depth)
  {
    hide DecodeValue, Lex, SetEntry, HasAt;
    SetNew(entries, Index(|entries| + 1), val);
    if HasAt(text, q, "]") {
      MarkRead(cfg, text, q, ']');
    }
    if HasAt(text, q, ",") {
      MarkRead(cfg, text, q, ',');
      HasInside(text, q, ",");
    }
  }

  /** The loop over the items from the item `k` + 1 on. */
  lemma {:induction false} ItemsRead(cfg: Config, text: string, p: nat, v: Value, k: nat, de: nat, dd: nat)
    requires v.Table? && Plain(v) && IsArray(v.entries) && k < |v.entries| && p <= |text|
    requires de + Depth(v) <= cfg.encodeMaxDepth + 1 && dd + Depth(v) <= cfg.decodeMaxDepth + 1
    requires EncodeItems(cfg, v, |v.entries|, de).Text? && EncodeItems(cfg, v, k, de).Text?
    requires HasAt(text, p, EncodeItems(cfg, v, |v.entries|, de).s + "]")
    ensures p + |EncodeItems(cfg, v, k, de).s| + Comma1(k) <= |text|
    ensures DecodeItems(cfg, text, Lex(cfg, text, p + |EncodeItems(cfg, v, k, de).s| + Comma1(k)), CanonItems(v, k), dd)
      == Decoded(Table(CanonItems(v, |v.entries|)), p + |EncodeItems(cfg, v, |v.entries|, de).s| + 1)
    decreases v, 0, |v.entries| - k
  {
    hide DecodeValue, DecodeItems, Lex, Encode, EncodeItems, HasAt, Canon, CanonItems, Plain, IsArray, Lookup, Depth;
    var n := |v.entries|;
    var at, item := p + |EncodeItems(cfg, v, k, de).s| + Comma1(k), Lookup(v.entries, Index(k + 1));
    ItemPlain(v, k + 1);
    HasSplit(text, p, EncodeItems(cfg, v, n, de).s, "]");
    ItemAt(cfg, text, p, v, n, k, de);
    HasInside(text, at, Encode(cfg, item, de).s);
    ValueRead(cfg, text, at, item, de, dd);
    CanonItemsKeys(v, k);
    CanonItemsNext(v, k);
    var q := p + |EncodeItems(cfg, v, k + 1, de).s|;
    DecodeItemsStep(cfg, text, Lex(cfg, text, at), CanonItems(v, k), dd, Canon(item), q);
    if k + 1 < n {
      ItemPlain(v, k + 2);
      ItemAt(cfg, text, p, v, n, k + 1, de);
      ItemsRead(cfg, text, p, v, k + 1, de, dd);
    }
  }

  lemma CanonItemsNext(v: Value, k: nat)
    requires v.Table? && IsArray(v.entries) && k < |v.entries|
    ensures CanonItems(v, k + 1) == CanonItems(v, k) + [Entry(Index(k + 1), Canon(Lookup(v.entries, Index(k + 1))))]
  {
  }

  // ----- fields -----

  lemma {:induction false} FieldsWritten(cfg: Config, v: Value, n: nat, k: nat, de: nat)
    requires v.Table? && k <= n <= |v.entries| && EncodeFields(cfg, v, n, de).Text?
    ensures EncodeFields(cfg, v, k, de).Text? && EncodeFields(cfg, v, k, de).s <= EncodeFields(cfg, v, n, de).s
    decreases n
  {
    if k < n {
      FieldsWritten(cfg, v, n - 1, k, de);
    }
  }

  lemma EncodeFieldsNext(cfg: Config, v: Value, k: nat, de: nat)
    requires v.Table? && k < |v.entries| && v.entries[k].key.Name?
    ensures EncodeFields(cfg, v, k + 1, de).Text? <==>
      EncodeFields(cfg, v, k, de).Text? && Encode(cfg, v.entries[k].val, de).Text?
    ensures EncodeFields(cfg, v, k + 1, de).Text? ==>
      EncodeFields(cfg, v, k + 1, de).s == EncodeFields(cfg, v, k, de).s + (if k > 0 then "," else "")
        + (Quoted(v.entries[k].key.s) + ":" + Encode(cfg, v.entries[k].val, de).s)
  {
  }

  /** Where the field `k` is: its key, and where its value starts. */
  lemma FieldAt(cfg: Config, text: string, p: nat, v: Value, n: nat, k: nat, de: nat)
    requires v.Table? && k < n <= |v.entries| && v.entries[k].key.Name?
    requires EncodeFields(cfg, v, n, de).Text? && HasAt(text, p, EncodeFields(cfg, v, n, de).s)
    ensures EncodeFields(cfg, v, k, de).Text? && EncodeFields(cfg, v, k + 1, de).Text?
      && Encode(cfg, v.entries[k].val, de).Text?
    ensures HasAt(text, p + |EncodeFields(cfg, v, k, de).s| + Comma1(k), Quoted(v.entries[k].key.s))
    ensures HasAt(text, ColonAt(cfg, p, v, k, de), ":")
    ensures HasAt(text, ColonAt(cfg, p, v, k, de) + 1, Encode(cfg, v.entries[k].val, de).s)
    ensures p + |EncodeFields(cfg, v, k + 1, de).s|
      == ColonAt(cfg, p, v, k, de) + 1 + |Encode(cfg, v.entries[k].val, de).s|
    ensures k > 0 ==> HasAt(text, p + |EncodeFields(cfg, v, k, de).s|, ",")
  {
    hide EncodeFields, Encode, HasAt, Quoted;
    FieldsWritten(cfg, v, n, k + 1, de);
    EncodeFieldsNext(cfg, v, k, de);
    HasPrefix(text, p, EncodeFields(cfg, v, n, de).s, EncodeFields(cfg, v, k + 1, de).s);
    FieldSplit(text, p, EncodeFields(cfg, v, k, de).s, if k > 0 then "," else "", Quoted(v.entries[k].key.s),
      Encode(cfg, v.entries[k].val, de).s);
  }

  lemma FieldSplit(text: string, p: nat, sofar: string, comma: string, key: string, val: string)
    requires HasAt(text, p, sofar + comma + (key + ":" + val))
    ensures HasAt(text, p + |sofar|, comma) && HasAt(text, p + |sofar| + |comma|, key)
    ensures HasAt(text, p + |sofar| + |comma| + |key|, ":") && HasAt(text, p + |sofar| + |comma| + |key| + 1, val)
  {
    hide HasAt;
    HasSplit(text, p, sofar + comma, key + ":" + val);
    HasSplit(text, p, sofar, comma);
    HasSplit(text, p + |sofar + comma|, key + ":", val);
    HasSplit(text, p + |sofar + comma|, key, ":");
  }

  /** The position of the colon of the field `k`. */
  function ColonAt(cfg: Config, p: nat, v: Value, k: nat, de: nat): nat
    requires v.Table? && k < |v.entries| && v.entries[k].key.Name? && EncodeFields(cfg, v, k, de).Text?
  {
    p + |EncodeFields(cfg, v, k, de).s| + Comma1(k) + |Quoted(v.entries[k].key.s)|
  }

  /** One round of the loop over the fields. */
  lemma DecodeFieldsStep(cfg: Config, text: string, l: Lexed, entries: seq<Entry>, depth: nat, key: string, val: Value,
      c: nat, q: nat)
    requires l.next <= |text| && q <= |text| && l == Lexed(StringToken(key), c) && HasAt(text, c, ":") && c + 1 <= |text|
    requires DecodeValue(cfg, text, Lex(cfg, text, c + 1), depth) == Decoded(val, q)
    requires forall i :: 0 <= i < |entries| ==> entries[i].key != Name(key)
    ensures HasAt(text, q, "}") ==>
      DecodeFields(cfg, text, l, entries, depth) == Decoded(Table(entries + [Entry(Name(key), val)]), q + 1)
    ensures HasAt(text, q, ",") ==> q < |text|
    ensures HasAt(text, q, ",") ==>
      DecodeFields(cfg, text, l, entries, depth)
      == DecodeFields(cfg, text, Lex(cfg, text, q + 1), entries + [Entry(Name(key), val)], depth)
  {
    hide DecodeValue, Lex, SetEntry, HasAt;
    SetNew(entries, Name(key), val);
    MarkRead(cfg, text, c, ':');
    if HasAt(text, q, "}") {
      MarkRead(cfg, text, q, '}');
    }
    if HasAt(text, q, ",") {
      MarkRead(cfg, text, q, ',');
      HasInside(text, q, ",");
    }
  }

  lemma CanonFieldsNext(v: Value, k: nat)
    requires v.Table? && IsObject(v.entries) && k < |v.entries|
    ensures CanonFields(v, k + 1) == CanonFields(v, k) + [Entry(v.entries[k].key, Canon(v.entries[k].val))]
    ensures v.entries[k].key.Name?
    ensures forall i :: 0 <= i < k ==> CanonFields(v, k)[i].key != v.entries[k].key
  {
    CanonFieldsKeys(v, k);
  }

  lemma FieldPlain(v: Value, k: nat)
    requires v.Table? && Plain(v) && k < |v.entries|
    ensures Plain(v.entries[k].val) && Depth(v.entries[k].val) < Depth(v) && v.entries[k].val < v
  {
    DepthInside(v, k);
  }

  /** The loop over the fields from the field `k` on. */
  lemma {:induction false} FieldsRead(cfg: Config, text: string, p: nat, v: Value, k: nat, de: nat, dd: nat)
    requires v.Table? && Plain(v) && IsObject(v.entries) && k < |v.entries| && p <= |text|
    requires de + Depth(v) <= cfg.encodeMaxDepth + 1 && dd + Depth(v) <= cfg.decodeMaxDepth + 1
    requires EncodeFields(cfg, v, |v.entries|, de).Text? && EncodeFields(cfg, v, k, de).Text?
    requires HasAt(text, p, EncodeFields(cfg, v, |v.entries|, de).s + "}")
    ensures p + |EncodeFields(cfg, v, k, de).s| + Comma1(k) <= |text|
    ensures DecodeFields(cfg, text, Lex(cfg, text, p + |EncodeFields(cfg, v, k, de).s| + Comma1(k)), CanonFields(v, k), dd)
      == Decoded(Table(CanonFields(v, |v.entries|)), p + |EncodeFields(cfg, v, |v.entries|, de).s| + 1)
    decreases v, 0, |v.entries| - k
  {
    hide DecodeValue, DecodeFields, Lex, Encode, EncodeFields, HasAt, Canon, CanonFields, Plain, IsObject, Depth,
      Quoted;
    var n := |v.entries|;
    CanonFieldsNext(v, k);
    FieldPlain(v, k);
    HasSplit(text, p, EncodeFields(cfg, v, n, de).s, "}");
    FieldAt(cfg, text, p, v, n, k, de);
    var at, c, e := p + |EncodeFields(cfg, v, k, de).s| + Comma1(k), ColonAt(cfg, p, v, k, de), v.entries[k];
    HasInside(text, at, Quoted(e.key.s));
    HasInside(text, c + 1, Encode(cfg, e.val, de).s);
    QuotedRead(cfg, text, at, e.key.s);
    ValueRead(cfg, text, c + 1, e.val, de, dd);
    var q := p + |EncodeFields(cfg, v, k + 1, de).s|;
    DecodeFieldsStep(cfg, text, Lex(cfg, text, at), CanonFields(v, k), dd, e.key.s, Canon(e.val), c, q);
    if k + 1 < n {
      CanonFieldsNext(v, k + 1);
      FieldAt(cfg, text, p, v, n, k + 1, de);
      FieldsRead(cfg, text, p, v, k + 1, de, dd);
    }
  }

  // ----- values -----

  /** The decoder reads back what the encoder wrote, whatever follows. */
  lemma {:induction false} ValueRead(cfg: Config, text: string, p: nat, v: Value, de: nat, dd: nat)
    requires Written(cfg, text, p, v, de, dd) && p <= |text|
    ensures ReadAs(cfg, text, p, v, de, dd)
    decreases v, 1, 0
  {
    match v {
      case Str(s) => QuotedRead(cfg, text, p, s);
      case Bool(b) => WordRead(cfg, text, p, if b then "true" else "false");
      case Null => WordRead(cfg, text, p, "null");
      case Table(entries) =>
        if IsArray(entries) {
          ArrayRead(cfg, text, p, v, de, dd);
        } else {
          ObjectRead(cfg, text, p, v, de, dd);
        }
    }
  }

  lemma WordRead(cfg: Config, text: string, p: nat, word: string)
    requires HasAt(text, p, word) && word in ["true", "false", "null"]
    ensures Lex(cfg, text, p) == Lexed(if word == "null" then NullToken else BoolToken(word == "true"), p + |word|)
  {
    HasFirst(text, p, word);
    assert word == "true" || word == "false" || word == "null";
    assert text[p..p + |word|][0] == text[p];
    if word == "false" {
      assert !HasAt(text, p, "true") by {
        assert "true"[0] == 't';
      }
    } else if word == "null" {
      assert "true"[0] == 't' && "false"[0] == 'f';
    }
  }

  lemma EncodeArray(cfg: Config, v: Value, de: nat)
    requires v.Table? && IsArray(v.entries) && de + 1 <= cfg.encodeMaxDepth
    ensures Encode(cfg, v, de).Text? <==> EncodeItems(cfg, v, |v.entries|, de + 1).Text?
    ensures Encode(cfg, v, de).Text? ==> Encode(cfg, v, de).s == "[" + (EncodeItems(cfg, v, |v.entries|, de + 1).s + "]")
  {
    ArrayLengthIs(cfg, v.entries);
    hide EncodeItems, LengthOf, Lookup;
  }

  lemma EncodeNothing(cfg: Config, v: Value, de: nat)
    requires v.Table?
    ensures EncodeItems(cfg, v, 0, de) == Text("") && EncodeFields(cfg, v, 0, de) == Text("")
  {
  }

  lemma EncodeObject(cfg: Config, v: Value, de: nat)
    requires v.Table? && IsObject(v.entries) && de + 1 <= cfg.encodeMaxDepth
    ensures Encode(cfg, v, de).Text? <==> EncodeFields(cfg, v, |v.entries|, de + 1).Text?
    ensures Encode(cfg, v, de).Text? ==> Encode(cfg, v, de).s == "{" + (EncodeFields(cfg, v, |v.entries|, de + 1).s + "}")
  {
    ArrayLengthIs(cfg, v.entries);
    hide EncodeFields, LengthOf, Lookup;
  }

  /** Behind an opening bracket the loop over the items starts. */
  lemma DecodeArray(cfg: Config, text: string, l: Lexed, depth: nat)
    requires l.next <= |text| && l.tok == ArrBegin && depth + 1 <= cfg.decodeMaxDepth
    ensures DecodeItems(cfg, text, Lex(cfg, text, l.next), [], depth + 1).Decoded? ==>
      DecodeValue(cfg, text, l, depth) == DecodeItems(cfg, text, Lex(cfg, text, l.next), [], depth + 1)
  {
    hide Lex;
  }

  lemma DecodeObject(cfg: Config, text: string, l: Lexed, depth: nat)
    requires l.next <= |text| && l.tok == ObjBegin && depth + 1 <= cfg.decodeMaxDepth
    ensures DecodeFields(cfg, text, Lex(cfg, text, l.next), [], depth + 1).Decoded? ==>
      DecodeValue(cfg, text, l, depth) == DecodeFields(cfg, text, Lex(cfg, text, l.next), [], depth + 1)
    ensures Lex(cfg, text, l.next).tok == ObjEnd ==>
      DecodeValue(cfg, text, l, depth) == Decoded(Table([]), Lex(cfg, text, l.next).next)
  {
    hide Lex;
  }

  lemma CanonTable(v: Value)
    requires v.Table?
    ensures IsArray(v.entries) ==>
      |v.entries| > 0 && Canon(v) == Table(CanonItems(v, |v.entries|)) && CanonItems(v, 0) == []
    ensures !IsArray(v.entries) ==> Canon(v) == Table(CanonFields(v, |v.entries|)) && CanonFields(v, 0) == []
  {
  }

  lemma TableFacts(cfg: Config, text: string, p: nat, v: Value, de: nat, dd: nat)
    requires v.Table? && Written(cfg, text, p, v, de, dd)
    ensures Plain(v) && (IsArray(v.entries) || IsObject(v.entries)) && Depth(v) >= 1
    ensures de + Depth(v) <= cfg.encodeMaxDepth && dd + Depth(v) <= cfg.decodeMaxDepth
    ensures Encode(cfg, v, de).Text? && HasAt(text, p, Encode(cfg, v, de).s)
  {
  }

  lemma {:induction false} ArrayRead(cfg: Config, text: string, p: nat, v: Value, de: nat, dd: nat)
    requires v.Table? && IsArray(v.entries) && Written(cfg, text, p, v, de, dd) && p <= |text|
    ensures ReadAs(cfg, text, p, v, de, dd)
    decreases v, 0, |v.entries| + 1
  {
    hide Encode, EncodeItems, Depth, Canon, CanonItems, Plain, HasAt, Lex, DecodeValue, DecodeItems, Written, IsArray;
    TableFacts(cfg, text, p, v, de, dd);
    CanonTable(v);
    EncodeArray(cfg, v, de);
    EncodeNothing(cfg, v, de + 1);
    HasSplit(text, p, "[", EncodeItems(cfg, v, |v.entries|, de + 1).s + "]");
    MarkRead(cfg, text, p, '[');
    HasInside(text, p, "[");
    ItemsRead(cfg, text, p + 1, v, 0, de + 1, dd + 1);
    DecodeArray(cfg, text, Lex(cfg, text, p), dd);
  }

  lemma {:induction false} ObjectRead(cfg: Config, text: string, p: nat, v: Value, de: nat, dd: nat)
    requires v.Table? && !IsArray(v.entries) && Written(cfg, text, p, v, de, dd) && p <= |text|
    ensures ReadAs(cfg, text, p, v, de, dd)
    decreases v, 0, |v.entries| + 1
  {
    hide Encode, EncodeFields, Depth, Canon, CanonFields, Plain, HasAt, Lex, DecodeValue, DecodeFields, Written,
      IsArray, IsObject;
    TableFacts(cfg, text, p, v, de, dd);
    CanonTable(v);
    EncodeObject(cfg, v, de);
    EncodeNothing(cfg, v, de + 1);
    HasSplit(text, p, "{", EncodeFields(cfg, v, |v.entries|, de + 1).s + "}");
    MarkRead(cfg, text, p, '{');
    HasInside(text, p, "{");
    if |v.entries| == 0 {
      HasSplit(text, p + 1, "", "}");
      MarkRead(cfg, text, p + 1, '}');
    } else {
      FieldsRead(cfg, text, p + 1, v, 0, de + 1, dd + 1);
    }
    DecodeObject(cfg, text, Lex(cfg, text, p), dd);
  }

  // ----- whole texts -----

  lemma {:induction false} PlainEncodes(cfg: Config, v: Value, de: nat)
    requires Plain(v) && de + Depth(v) <= cfg.encodeMaxDepth
    ensures Encode(cfg, v, de).Text? && Encode(cfg, v, de).s != "" && NoZero(Encode(cfg, v, de).s)
    decreases v, 1, 0
  {
    match v {
      case Str(s) => EscapesNoZero(s);
      case Bool(b) =>
      case Null =>
      case Table(entries) => TableEncodes(cfg, v, de);
    }
  }

  lemma {:induction false} TableEncodes(cfg: Config, v: Value, de: nat)
    requires v.Table? && Plain(v) && de + Depth(v) <= cfg.encodeMaxDepth
    ensures Encode(cfg, v, de).Text? && Encode(cfg, v, de).s != "" && NoZero(Encode(cfg, v, de).s)
    decreases v, 0, |v.entries| + 1
  {
    assert Depth(v) >= 1 && (IsArray(v.entries) || IsObject(v.entries));
    hide Encode, EncodeItems, EncodeFields, Depth, Plain, IsArray, IsObject, Escapes, LengthOf;
    if IsArray(v.entries) {
      EncodeArray(cfg, v, de);
      ItemsEncode(cfg, v, |v.entries|, de + 1);
    } else {
      EncodeObject(cfg, v, de);
      FieldsEncode(cfg, v, |v.entries|, de + 1);
    }
  }

  ghost predicate NoZero(s: string) {
    forall i :: 0 <= i < |s| ==> s[i] != '\0'
  }

  lemma {:induction false} EscapesNoZero(s: string)
    ensures NoZero(Escapes(s))
    decreases |s|
  {
    if s != "" {
      EscapesNoZero(s[..|s| - 1]);
    }
  }

  lemma {:induction false} ItemsEncode(cfg: Config, v: Value, n: nat, de: nat)
    requires v.Table? && Plain(v) && IsArray(v.entries) && n <= |v.entries| && de + Depth(v) <= cfg.encodeMaxDepth + 1
    ensures EncodeItems(cfg, v, n, de).Text? && NoZero(EncodeItems(cfg, v, n, de).s)
    decreases v, 0, n
  {
    hide EncodeItems, Encode, Depth, Plain, IsArray, Lookup, NoZero;
    if n == 0 {
      EncodeNothing(cfg, v, de);
      NoZeroItem("", 0, "");
    } else {
      ItemPlain(v, n);
      ItemsEncode(cfg, v, n - 1, de);
      PlainEncodes(cfg, Lookup(v.entries, Index(n)), de);
      EncodeItemsNext(cfg, v, n - 1, de);
      NoZeroItem(EncodeItems(cfg, v, n - 1, de).s, n - 1, Encode(cfg, Lookup(v.entries, Index(n)), de).s);
    }
  }

  lemma {:induction false} FieldsEncode(cfg: Config, v: Value, n: nat, de: nat)
    requires v.Table? && Plain(v) && IsObject(v.entries) && n <= |v.entries| && de + Depth(v) <= cfg.encodeMaxDepth + 1
    ensures EncodeFields(cfg, v, n, de).Text? && NoZero(EncodeFields(cfg, v, n, de).s)
    decreases v, 0, n
  {
    hide EncodeFields, Encode, Depth, Plain, Escapes, IsObject, NoZero;
    if n == 0 {
      EncodeNothing(cfg, v, de);
      NoZeroItem("", 0, "");
    } else {
      CanonFieldsNext(v, n - 1);
      FieldPlain(v, n - 1);
      FieldsEncode(cfg, v, n - 1, de);
      PlainEncodes(cfg, v.entries[n - 1].val, de);
      EscapesNoZero(v.entries[n - 1].key.s);
      EncodeFieldsNext(cfg, v, n - 1, de);
      NoZeroField(EncodeFields(cfg, v, n - 1, de).s, n - 1, v.entries[n - 1].key.s, Encode(cfg, v.entries[n - 1].val,
        de).s);
    }
  }

  lemma NoZeroItem(sofar: string, k: nat, item: string)
    ensures NoZero("")
    ensures NoZero(sofar) && NoZero(item) ==> NoZero(sofar + (if k > 0 then "," else "") + item)
  {
  }

  lemma NoZeroField(sofar: string, k: nat, key: string, val: string)
    requires NoZero(sofar) && NoZero(Escapes(key)) && NoZero(val)
    ensures NoZero(sofar + (if k > 0 then "," else "") + (Quoted(key) + ":" + val))
  {
    hide Escapes;
  }

  /** The round trip: a plain value within both limits is encoded, and its text
      is decoded to the same value, to the last character. */
  lemma RoundTrip(cfg: Config, v: Value)
    requires Plain(v) && Depth(v) <= cfg.encodeMaxDepth && Depth(v) <= cfg.decodeMaxDepth
    ensures var text := Encode(cfg, v, 0); text.Text? && Decode(cfg, text.s) == Decoded(Canon(v), |text.s|)
  {
    PlainEncodes(cfg, v, 0);
    var text := Encode(cfg, v, 0).s;
    assert text[0..|text|] == text;
    ValueRead(cfg, text, 0, v, 0, 0);
  }

  // ----- UTF-8 -----

  /** The code point of a UTF-8 sequence, by its lead byte. */
  function FromUtf8(s: string): nat
    requires 1 <= |s| <= 4
  {
    if |s| == 1 then s[0] as int
    else if |s| == 2 then s[0] as int % 0x20 * 0x40 + s[1] as int % 0x40
    else if |s| == 3 then s[0] as int % 0x10 * 0x1000 + s[1] as int % 0x40 * 0x40 + s[2] as int % 0x40
    else s[0] as int % 8 * 0x4_0000 + s[1] as int % 0x40 * 0x1000 + s[2] as int % 0x40 * 0x40 + s[3] as int % 0x40
  }

  lemma ThreeDigits(cp: nat)
    requires cp < 0x1_0000
    ensures cp == cp / 0x1000 * 0x1000 + cp / 0x40 % 0x40 * 0x40 + cp % 0x40 && cp / 0x1000 < 0x10
  {
    assert cp / 0x1000 == cp / 0x40 / 0x40;
  }

  lemma FourDigits(cp: nat)
    requires cp <= 0x10_FFFF
    ensures cp == cp / 0x4_0000 * 0x4_0000 + cp / 0x1000 % 0x40 * 0x1000 + cp / 0x40 % 0x40 * 0x40 + cp % 0x40
    ensures cp / 0x4_0000 <= 4
  {
    assert cp / 0x1000 == cp / 0x40 / 0x40;
    assert cp / 0x4_0000 == cp / 0x1000 / 0x40;
  }

  /** The bytes are those of section 3 of RFC 3629: as many as the lead byte says,
      the others continuation bytes, and the shortest form. */
  lemma Utf8Correct(cp: nat)
    requires cp <= 0x10_FFFF
    ensures FromUtf8(Utf8(cp)) == cp
    ensures forall i :: 0 < i < |Utf8(cp)| ==> 0x80 <= Utf8(cp)[i] as int <= 0xBF
    ensures |Utf8(cp)| == LengthByLead(Utf8(cp)[0])
    ensures |Utf8(cp)| == if cp < 0x80 then 1 else if cp < 0x800 then 2 else if cp < 0x1_0000 then 3 else 4
  {
    if cp >= 0x1_0000 {
      Utf8Four(cp);
    } else if cp >= 0x800 {
      Utf8Three(cp);
    }
  }

  lemma Utf8Three(cp: nat)
    requires 0x800 <= cp < 0x1_0000
    ensures var s := Utf8(cp);
      && |s| == 3 && 0xE0 <= s[0] as int <= 0xEF && 0x80 <= s[1] as int <= 0xBF && 0x80 <= s[2] as int <= 0xBF
      && FromUtf8(s) == cp
  {
    ThreeDigits(cp);
    var a, b, c := cp / 0x1000, cp / 0x40 % 0x40, cp % 0x40;
    hide FromUtf8;
    assert Utf8(cp) == [(a + 0xE0) as char, (b + 0x80) as char, (c + 0x80) as char];
    From3(a, b, c);
  }

  lemma From3(a: nat, b: nat, c: nat)
    requires a < 0x10 && b < 0x40 && c < 0x40
    ensures FromUtf8([(a + 0xE0) as char, (b + 0x80) as char, (c + 0x80) as char]) == a * 0x1000 + b * 0x40 + c
  {
  }

  lemma Utf8Four(cp: nat)
    requires 0x1_0000 <= cp <= 0x10_FFFF
    ensures var s := Utf8(cp);
      && |s| == 4 && 0xF0 <= s[0] as int <= 0xF4 && 0x80 <= s[1] as int <= 0xBF
      && 0x80 <= s[2] as int <= 0xBF && 0x80 <= s[3] as int <= 0xBF && FromUtf8(s) == cp
  {
    FourDigits(cp);
    var a, b, c, d := cp / 0x4_0000, cp / 0x1000 % 0x40, cp / 0x40 % 0x40, cp % 0x40;
    hide FromUtf8;
    assert Utf8(cp) == [(a + 0xF0) as char, (b + 0x80) as char, (c + 0x80) as char, (d + 0x80) as char];
    From4(a, b, c, d);
  }

  lemma From4(a: nat, b: nat, c: nat, d: nat)
    requires a < 8 && b < 0x40 && c < 0x40 && d < 0x40
    ensures FromUtf8([(a + 0xF0) as char, (b + 0x80) as char, (c + 0x80) as char, (d + 0x80) as char])
      == a * 0x4_0000 + b * 0x1000 + c * 0x40 + d
  {
  }

  function LengthByLead(c: char): nat {
    if c as int <= 0x7F then 1
    else if 0xC2 <= c as int <= 0xDF then 2
    else if 0xE0 <= c as int <= 0xEF then 3
    else if 0xF0 <= c as int <= 0xF4 then 4
    else 0
  }

  /** Two escapes of a surrogate pair stand for one code point, as in section 7 of
      RFC 8259; a surrogate alone is an error. */
  lemma SurrogatePairs(text: string, p: nat, hi: nat, lo: nat)
    requires Hex4(text, p + 2) == hi && Hex4(text, p + 8) == lo && At(text, p + 6) == '\\' && At(text, p + 7) == 'u'
    ensures 0xD800 <= hi <= 0xDBFF && 0xDC00 <= lo <= 0xDFFF ==>
      UnicodeEscape(text, p) == Bytes(Utf8(0x1_0000 + (hi - 0xD800) * 0x400 + (lo - 0xDC00)), 12)
    ensures 0xD800 <= hi <= 0xDBFF && !(0xDC00 <= lo <= 0xDFFF) ==> UnicodeEscape(text, p) == BadEscape
    ensures 0xDC00 <= hi <= 0xDFFF ==> UnicodeEscape(text, p) == BadEscape
  {
  }
}
