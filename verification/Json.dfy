/** The JSON encoder and decoder of lua_cjson.c. */
module Json {
  import opened Texts
  import opened Wrappers
  import opened JsonText

  const STRBUF_DEFAULT_SIZE := 1023

  /** A growing buffer of characters; one is always left for a final zero. */
  class StrBuf {
    var buf: array<char>
    var length: nat

    /** strbuf_init. */
    constructor (len: nat)
      ensures Valid() && fresh(buf) && Contents() == ""
      ensures buf.Length == if len == 0 then STRBUF_DEFAULT_SIZE else len + 1
    {
      buf := new char[if len == 0 then STRBUF_DEFAULT_SIZE else len + 1](_ => '\0');
      length := 0;
    }

    ghost predicate Valid()
      reads this
    {
      length < buf.Length
    }

    function Contents(): (s: string)
      requires Valid()
      reads this, buf
    {
      buf[..length]
    }

    /** strbuf_reset. */
    method Reset()
      requires Valid()
      modifies `length
      ensures Valid() && Contents() == ""
    {
      length := 0;
    }

    /** calculate_new_size, with exponential growth. */
    method NewSize(len: nat) returns (newsize: nat)
      requires Valid()
      ensures buf.Length > len + 1 ==> newsize == len + 1
      ensures buf.Length <= len + 1 ==> newsize >= len + 1 && newsize >= buf.Length
    {
      var reqsize := len + 1;
      if buf.Length > reqsize {
        return reqsize;
      }
      newsize := buf.Length;
      while newsize < reqsize
        invariant newsize >= buf.Length
        decreases reqsize - newsize
      {
        newsize := newsize * 2;
      }
    }

    /** strbuf_resize. */
    method Resize(len: nat)
      requires Valid() && length <= len
      modifies this
      ensures Valid() && fresh(buf) && buf.Length >= len + 1 && Contents() == old(Contents()) && length == old(length)
      ensures old(buf.Length) <= len + 1 ==> buf.Length >= old(buf.Length)
    {
      var size := NewSize(len);
      var was := buf;
      buf := new char[size](_ => '\0');
      for i := 0 to length
        invariant fresh(buf) && buf.Length == size > length
        invariant buf[..i] == was[..i]
        invariant was[..] == old(buf[..])
        modifies buf
      {
        buf[i] := was[i];
      }
    }

    /** strbuf_ensure_empty_length. */
    method EnsureEmptyLength(len: nat)
      requires Valid()
      modifies this
      ensures Valid() && (buf == old(buf) || fresh(buf)) && length == old(length) && Contents() == old(Contents())
      ensures buf.Length > length + len && buf.Length >= old(buf.Length)
    {
      if len > buf.Length - length - 1 {
        Resize(length + len);
      }
    }

    /** strbuf_append_char_unsafe: no check, so there must be room. */
    method AppendCharUnsafe(c: char)
      requires Valid() && length + 1 < buf.Length
      modifies `length, buf
      ensures Valid() && Contents() == old(Contents()) + [c] && length == old(length) + 1
    {
      buf[length] := c;
      length := length + 1;
    }

    /** strbuf_append_char. */
    method AppendChar(c: char)
      requires Valid()
      modifies this, buf
      ensures Valid() && (buf == old(buf) || fresh(buf)) && Contents() == old(Contents()) + [c]
    {
      EnsureEmptyLength(1);
      AppendCharUnsafe(c);
    }

    /** The copy of strbuf_append_mem_unsafe. */
    method AppendMemUnsafe(s: string)
      requires Valid() && length + |s| < buf.Length
      modifies `length, buf
      ensures Valid() && Contents() == old(Contents()) + s && length == old(length) + |s|
    {
      ghost var was := Contents();
      for i := 0 to |s|
        invariant length == old(length) + i && length + |s| - i < buf.Length
        invariant Contents() == was + s[..i]
      {
        AppendCharUnsafe(s[i]);
        assert s[..i + 1] == s[..i] + [s[i]];
      }
    }

    /** strbuf_append_mem. */
    method AppendMem(s: string)
      requires Valid()
      modifies this, buf
      ensures Valid() && (buf == old(buf) || fresh(buf)) && Contents() == old(Contents()) + s
    {
      EnsureEmptyLength(|s|);
      AppendMemUnsafe(s);
    }

    /** strbuf_append_string: grows only when the room is used up. */
    method AppendString(s: string)
      requires Valid()
      modifies this, buf
      ensures Valid() && (buf == old(buf) || fresh(buf)) && Contents() == old(Contents()) + s
      ensures length == old(length) + |s| && buf.Length >= old(buf.Length)
    {
      ghost var was := Contents();
      for i := 0 to |s|
        invariant Valid() && (buf == old(buf) || fresh(buf)) && buf.Length >= old(buf.Length)
        invariant length == old(length) + i && Contents() == was + s[..i]
      {
        if buf.Length - length - 1 < 1 {
          Resize(length + 1);
        }
        AppendCharUnsafe(s[i]);
        assert s[..i + 1] == s[..i] + [s[i]];
      }
    }
  }

  // ----- encoding -----

  /** lua_array_length. */
  method FindArrayLength(cfg: Config, entries: seq<Entry>) returns (len: ArrayLength)
    ensures len == LengthOf(cfg, entries)
  {
    var max, items := 0, 0;
    for i := 0 to |entries|
      invariant items == i && max == MaxIndex(entries[..i])
      invariant forall j :: 0 <= j < i ==> entries[j].key.Index? && entries[j].key.n >= 1
    {
      assert entries[..i + 1][..i] == entries[..i];
      var key := entries[i].key;
      if !(key.Index? && key.n >= 1) {
        return NotArray;
      }
      if key.n > max {
        max := key.n;
      }
      items := items + 1;
    }
    assert entries[..|entries|] == entries;
    if cfg.sparseRatio > 0 && max > items * cfg.sparseRatio && max > cfg.sparseSafe {
      return if cfg.sparseConvert then NotArray else Sparse;
    }
    return Length(max);
  }

  /** What appending the text of a value does. */
  ghost predicate Appended(st: Status, was: string, now: string, t: Text) {
    if t.Text? then st == Okay && now == was + t.s else st == Error(t.message)
  }

  lemma AppendedLast(st: Status, base: string, a: string, now: string, t: Text)
    requires Appended(st, base + a, now, t)
    ensures Appended(st, base, now, Join(Text(a), t))
  {
    if t.Text? {
      assert base + a + t.s == base + (a + t.s);
    }
  }

  lemma AppendedAfter(st: Status, base: string, a: string, b: string, now: string, t: Text)
    requires Appended(st, base + a + b, now, t)
    ensures Appended(st, base, now, Join(Text(a), Join(Text(b), t)))
  {
    if t.Text? {
      assert base + a + b + t.s == base + (a + (b + t.s));
    }
  }

  class Encoder {
    const cfg: Config
    const json: StrBuf

    constructor (cfg: Config)
      ensures this.cfg == cfg && fresh(json) && fresh(json.buf) && json.Valid() && json.Contents() == ""
    {
      this.cfg := cfg;
      json := new StrBuf(0);
    }

    /** json_append_string. The room for the worst case is made first, so that
        characters can be appended without a check. */
    method AppendQuoted(s: string)
      requires json.Valid()
      modifies json, json.buf
      ensures json.Valid() && (json.buf == old(json.buf) || fresh(json.buf))
      ensures json.Contents() == old(json.Contents()) + Quoted(s)
    {
      hide Escapes, Escape;
      ghost var was := json.Contents();
      json.EnsureEmptyLength(|s| * 6 + 2);
      json.AppendCharUnsafe('\"');
      EscapesNothing();
      for i := 0 to |s|
        invariant json.Valid() && (json.buf == old(json.buf) || fresh(json.buf))
        invariant json.buf.Length > json.length + 6 * (|s| - i) + 1
        invariant json.Contents() == was + "\"" + Escapes(s[..i])
      {
        EscapesNext(s, i);
        AppendEscape(s[i]);
      }
      assert s[..|s|] == s;
      json.AppendCharUnsafe('\"');
      assert json.Contents() == was + ("\"" + Escapes(s) + "\"");
    }

    /** One character of a string, where there is room for the longest escape. */
    method AppendEscape(c: char)
      requires json.Valid() && json.buf.Length > json.length + 6
      modifies json, json.buf
      ensures json.Valid() && (json.buf == old(json.buf) || fresh(json.buf)) && json.buf.Length >= old(json.buf.Length)
      ensures json.Contents() == old(json.Contents()) + Escape(c)
        && json.length == old(json.length) + |Escape(c)| <= old(json.length) + 6
    {
      EscapesNext([c], 0);
      var escstr := Escape(c);
      hide Escape, Escapes;
      if |escstr| > 1 {
        json.AppendString(escstr);
      } else {
        json.AppendCharUnsafe(c);
      }
    }

    /** json_append_data. */
    method AppendData(v: Value, depth: nat) returns (st: Status)
      requires json.Valid()
      modifies json, json.buf
      ensures json.Valid() && (json.buf == old(json.buf) || fresh(json.buf))
      ensures Appended(st, old(json.Contents()), json.Contents(), Encode(cfg, v, depth))
      decreases v, 1, 0
    {
      st := Okay;
      match v {
        case Str(s) => AppendQuoted(s);
        case Number(n) => json.AppendMem(cfg.digits(n));
        case Bool(b) => json.AppendMem(if b then "true" else "false");
        case Nil => json.AppendMem("null");
        case Null => json.AppendMem("null");
        case OtherValue(_) => st := Error("type not supported");
        case Table(entries) =>
          if depth + 1 > cfg.encodeMaxDepth {
            return Error("excessive nesting");
          }
          var len := FindArrayLength(cfg, entries);
          if len == Sparse {
            return Error("excessively sparse array");
          }
          if len.Length? && len.n > 0 {
            st := AppendArray(v, len.n, depth + 1);
          } else {
            st := AppendObject(v, depth + 1);
          }
      }
    }

    /** json_append_array. */
    method AppendArray(v: Value, n: nat, depth: nat) returns (st: Status)
      requires json.Valid() && v.Table?
      modifies json, json.buf
      ensures json.Valid() && (json.buf == old(json.buf) || fresh(json.buf))
      ensures Appended(st, old(json.Contents()), json.Contents(), Bracketed("[", EncodeItems(cfg, v, n, depth), "]"))
      decreases v, 0, 2
    {
      hide EncodeItems;
      ghost var base := json.Contents() + "[";
      st := Okay;
      json.AppendChar('[');
      EncodeNothing(cfg, v, depth);
      for i := 1 to n + 1
        invariant json.Valid() && (json.buf == old(json.buf) || fresh(json.buf)) && st == Okay
        invariant Appended(st, base, json.Contents(), EncodeItems(cfg, v, i - 1, depth))
      {
        st := AppendItem(v, i, depth, base);
        if st.Error? {
          ItemsFail(cfg, v, n, i, depth);
          return;
        }
      }
      json.AppendChar(']');
    }

    /** The item `i`, after a comma if it is not the first. */
    method AppendItem(v: Value, i: nat, depth: nat, ghost base: string) returns (st: Status)
      requires json.Valid() && v.Table? && i > 0
      requires Appended(Okay, base, json.Contents(), EncodeItems(cfg, v, i - 1, depth))
      modifies json, json.buf
      ensures json.Valid() && (json.buf == old(json.buf) || fresh(json.buf))
      ensures Appended(st, base, json.Contents(), EncodeItems(cfg, v, i, depth))
      decreases v, 0, 1
    {
      ItemsLast(cfg, v, i, depth);
      hide EncodeItems, Encode, Lookup;
      if i > 1 {
        json.AppendChar(',');
      }
      ghost var t := EncodeItems(cfg, v, i - 1, depth).s + if i > 1 then "," else "";
      assert json.Contents() == base + t;
      var item := Lookup(v.entries, Index(i));
      if item == Nil {
        json.AppendMem("null");
        st := Okay;
        AppendedLast(st, base, t, json.Contents(), Text("null"));
      } else {
        st := AppendData(item, depth);
        AppendedLast(st, base, t, json.Contents(), Encode(cfg, item, depth));
      }
    }

    /** json_append_object. */
    method AppendObject(v: Value, depth: nat) returns (st: Status)
      requires json.Valid() && v.Table?
      modifies json, json.buf
      ensures json.Valid() && (json.buf == old(json.buf) || fresh(json.buf))
      ensures Appended(st, old(json.Contents()), json.Contents(), Bracketed("{", EncodeFields(cfg, v, |v.entries|, depth), "}"))
      decreases v, 0, 2
    {
      hide EncodeFields;
      ghost var base := json.Contents() + "{";
      st := Okay;
      json.AppendChar('{');
      EncodeNothing(cfg, v, depth);
      for i := 0 to |v.entries|
        invariant json.Valid() && (json.buf == old(json.buf) || fresh(json.buf)) && st == Okay
        invariant Appended(st, base, json.Contents(), EncodeFields(cfg, v, i, depth))
      {
        st := AppendField(v, i, depth, base);
        if st.Error? {
          FieldsFail(cfg, v, |v.entries|, i + 1, depth);
          return;
        }
      }
      json.AppendChar('}');
    }

    /** The field `i`, after a comma if it is not the first. */
    method AppendField(v: Value, i: nat, depth: nat, ghost base: string) returns (st: Status)
      requires json.Valid() && v.Table? && i < |v.entries|
      requires Appended(Okay, base, json.Contents(), EncodeFields(cfg, v, i, depth))
      modifies json, json.buf
      ensures json.Valid() && (json.buf == old(json.buf) || fresh(json.buf))
      ensures Appended(st, base, json.Contents(), EncodeFields(cfg, v, i + 1, depth))
      decreases v, 0, 1
    {
      FieldsLast(cfg, v, i, depth);
      hide EncodeFields, Encode, EncodeKey;
      if i > 0 {
        json.AppendChar(',');
      }
      ghost var t, key := EncodeFields(cfg, v, i, depth).s + if i > 0 then "," else "", EncodeKey(cfg, v.entries[i].key);
      assert json.Contents() == base + t;
      st := AppendKey(v.entries[i].key);
      if st.Okay? {
        st := AppendData(v.entries[i].val, depth);
        AppendedAfter(st, base, t, key.s, json.Contents(), Encode(cfg, v.entries[i].val, depth));
      }
    }

    method AppendKey(key: Key) returns (st: Status)
      requires json.Valid()
      modifies json, json.buf
      ensures json.Valid() && (json.buf == old(json.buf) || fresh(json.buf))
      ensures Appended(st, old(json.Contents()), json.Contents(), EncodeKey(cfg, key))
    {
      ghost var was := json.Contents();
      st := Okay;
      match key {
        case Index(n) =>
          json.AppendChar('\"');
          json.AppendMem(cfg.digits(n));
          json.AppendMem("\":");
          assert json.Contents() == was + ("\"" + cfg.digits(n) + "\":");
        case Name(s) =>
          AppendQuoted(s);
          json.AppendChar(':');
          assert json.Contents() == was + (Quoted(s) + ":");
        case OtherKey(_) =>
          st := Error("table key must be a number or string");
      }
    }
  }

  /** json_encode. */
  method JsonEncode(cfg: Config, v: Value) returns (st: Status, text: string)
    ensures Appended(st, "", text, Encode(cfg, v, 0))
  {
    var encoder := new Encoder(cfg);
    st := encoder.AppendData(v, 0);
    text := encoder.json.Contents();
  }

  // ----- decoding -----

  class Decoder {
    const cfg: Config
    const data: string
    const tmp: StrBuf
    var ptr: nat
    var depth: nat

    constructor (cfg: Config, data: string)
      ensures this.cfg == cfg && this.data == data && ptr == 0 && depth == 0 && Valid() && fresh(tmp) && fresh(tmp.buf)
    {
      this.cfg, this.data, ptr, depth := cfg, data, 0, 0;
      tmp := new StrBuf(|data|);
    }

    /** The buffer for strings has room for the whole text. */
    ghost predicate Valid()
      reads this, tmp
    {
      tmp.Valid() && tmp.buf.Length > |data| && ptr <= |data|
    }

    /** json_append_unicode_escape. */
    method AppendUnicodeEscape() returns (ok: bool)
      requires Valid() && tmp.length + |data| - ptr < tmp.buf.Length
      modifies `ptr, tmp`length, tmp.buf
      ensures Valid() && ok == UnicodeEscape(data, old(ptr)).Bytes?
      ensures ok ==> ptr == old(ptr) + UnicodeEscape(data, old(ptr)).len
      ensures ok ==> tmp.Contents() == old(tmp.Contents()) + UnicodeEscape(data, old(ptr)).s
      ensures ok ==> tmp.length == old(tmp.length) + |UnicodeEscape(data, old(ptr)).s|
      ensures !ok ==> ptr == old(ptr)
    {
      var escapeLen := 6;
      var codepoint := Hex4(data, ptr + 2);
      if codepoint < 0 {
        return false;
      }
      if codepoint / 0x800 == 0x1B {
        if codepoint / 0x400 != 0x36 {
          return false;
        }
        if At(data, ptr + escapeLen) != '\\' || At(data, ptr + escapeLen + 1) != 'u' {
          return false;
        }
        var low := Hex4(data, ptr + 2 + escapeLen);
        if low < 0 || low / 0x400 != 0x37 {
          return false;
        }
        codepoint := (codepoint % 0x400) * 0x400 + low % 0x400 + 0x1_0000;
        escapeLen := 12;
      }
      tmp.AppendMemUnsafe(Utf8(codepoint));
      ptr := ptr + escapeLen;
      return true;
    }

    /** json_next_string_token, at the quote. The decoded string is no longer than
        its text, so there is room for each character. */
    method NextStringToken() returns (tok: Token)
      requires Valid() && At(data, ptr) == '\"' && ptr < |data|
      modifies `ptr, tmp`length, tmp.buf
      ensures Valid() && ptr > old(ptr) && Lexed(tok, ptr) == LexString(data, old(ptr) + 1)
    {
      hide LexString;
      ptr := ptr + 1;
      tmp.Reset();
      ghost var start := ptr;
      PrefixedNothing(LexString(data, ptr));
      while At(data, ptr) != '\"'
        invariant Valid() && start <= ptr && tmp.length + |data| - ptr < tmp.buf.Length
        invariant LexString(data, start) == Prefixed(tmp.Contents(), LexString(data, ptr))
        decreases |data| - ptr
      {
        ghost var sofar := tmp.Contents();
        var error, got := NextStringChar();
        if error != "" {
          return ErrorToken(error);
        }
        PrefixedTwice(sofar, got, LexString(data, ptr));
      }
      LexQuote(data, ptr);
      ptr := ptr + 1;
      assert tmp.Contents() + "" == tmp.Contents();
      return StringToken(tmp.Contents());
    }

    /** One round of the loop: a character or an escape. */
    method NextStringChar() returns (error: string, ghost got: string)
      requires Valid() && At(data, ptr) != '\"' && tmp.length + |data| - ptr < tmp.buf.Length
      modifies `ptr, tmp`length, tmp.buf
      ensures Valid() && ptr >= old(ptr)
      ensures error == "" ==> tmp.length + |data| - ptr <= old(tmp.length + |data| - ptr)
      ensures error == "" ==> ptr > old(ptr) && tmp.Contents() == old(tmp.Contents()) + got
      ensures error == "" ==> LexString(data, old(ptr)) == Prefixed(got, LexString(data, ptr))
      ensures error != "" ==> LexString(data, old(ptr)) == Lexed(ErrorToken(error), ptr)
    {
      error, got := "", "";
      var ch := At(data, ptr);
      if ch == '\0' {
        return "unexpected end of string", got;
      }
      if ch == '\\' {
        ch := EscapeChar(At(data, ptr + 1));
        if ch == 'u' {
          got := if UnicodeEscape(data, ptr).Bytes? then UnicodeEscape(data, ptr).s else "";
          var ok := AppendUnicodeEscape();
          if !ok {
            error := "invalid unicode escape code";
          }
          return;
        }
        if ch == '\0' {
          return "invalid escape code", got;
        }
        ptr := ptr + 1;
      }
      tmp.AppendCharUnsafe(ch);
      got := [ch];
      ptr := ptr + 1;
    }

    /** json_next_token. */
    method NextToken() returns (tok: Token)
      requires Valid()
      modifies `ptr, tmp`length, tmp.buf
      ensures Valid() && ptr >= old(ptr) && Lexed(tok, ptr) == Lex(cfg, data, old(ptr))
    {
      while IsWhite(At(data, ptr))
        invariant Valid() && old(ptr) <= ptr && SkipWhite(data, ptr) == SkipWhite(data, old(ptr))
        decreases |data| - ptr
      {
        ptr := ptr + 1;
      }
      var ch := At(data, ptr);
      if ch == '\0' {
        return End;
      }
      if ch in "{}[],:" {
        ptr := ptr + 1;
        return if ch == '{' then ObjBegin else if ch == '}' then ObjEnd else if ch == '[' then ArrBegin
          else if ch == ']' then ArrEnd else if ch == ',' then Comma else Colon;
      }
      if ch == '\"' {
        tok := NextStringToken();
      } else if ch == '-' || '0' <= ch <= '9' {
        tok := NextNumberToken();
      } else if HasAt(data, ptr, "true") {
        ptr := ptr + 4;
        tok := BoolToken(true);
      } else if HasAt(data, ptr, "false") {
        ptr := ptr + 5;
        tok := BoolToken(false);
      } else if HasAt(data, ptr, "null") {
        ptr := ptr + 4;
        tok := NullToken;
      } else if ch in "iInN+tf" && InvalidNumber(data, ptr) {
        tok := NextNumberToken();
      } else {
        tok := ErrorToken("invalid token");
      }
    }

    /** json_next_number_token. */
    method NextNumberToken() returns (tok: Token)
      requires Valid()
      modifies `ptr
      ensures Valid() && ptr >= old(ptr) && Lexed(tok, ptr) == LexNumber(cfg, data, old(ptr))
    {
      var (n, end) := cfg.scan(data, ptr);
      if end <= ptr || end > |data| {
        return ErrorToken("invalid number");
      }
      ptr := end;
      return NumberToken(n);
    }

    /** What reading a value does. */
    ghost predicate Reads(st: Status, v: Value, d: Decoded, level: nat)
      reads this
    {
      if d.Decoded? then st == Okay && v == d.v && ptr == d.next && depth == level else st == Error(d.message)
    }

    /** json_process_value. */
    method ProcessValue(tok: Token) returns (st: Status, v: Value)
      requires Valid()
      modifies `ptr, `depth, tmp`length, tmp.buf
      ensures Valid() && ptr >= old(ptr)
      ensures Reads(st, v, DecodeValue(cfg, data, Lexed(tok, old(ptr)), old(depth)), old(depth))
      decreases |data| - ptr, if tok == ArrBegin || tok == ObjBegin then 2 else 0
    {
      st, v := Okay, Nil;
      if tok.StringToken? {
        v := Str(tok.s);
      } else if tok.NumberToken? {
        v := Number(tok.n);
      } else if tok.BoolToken? {
        v := Bool(tok.b);
      } else if tok == ObjBegin {
        st, v := ParseObject();
      } else if tok == ArrBegin {
        st, v := ParseArray();
      } else if tok == NullToken {
        v := Null;
      } else {
        st := Error("Expected value");
      }
    }

    /** json_parse_array_context. */
    method ParseArray() returns (st: Status, v: Value)
      requires Valid()
      modifies `ptr, `depth, tmp`length, tmp.buf
      ensures Valid() && ptr >= old(ptr)
      ensures Reads(st, v, DecodeValue(cfg, data, Lexed(ArrBegin, old(ptr)), old(depth)), old(depth))
      decreases |data| - ptr, 1
    {
      ghost var whole := DecodeValue(cfg, data, Lexed(ArrBegin, ptr), depth);
      v := Nil;
      depth := depth + 1;
      if depth > cfg.decodeMaxDepth {
        return Error("too many nested data structures"), v;
      }
      var tok := NextToken();
      if tok == ArrEnd {
        depth := depth - 1;
        return Okay, Table([]);
      }
      var entries: seq<Entry> := [];
      ArrayStarts(cfg, data, old(ptr), depth, Lexed(tok, ptr), whole);
      while true
        invariant Valid() && ptr >= old(ptr) && depth == old(depth) + 1
        invariant ptr == old(ptr) ==> tok == End || tok.ErrorToken?
        invariant whole == DecodeItems(cfg, data, Lexed(tok, ptr), entries, depth)
        decreases |data| - ptr
      {
        ghost var at := Lexed(tok, ptr);
        ItemsUnfold(cfg, data, at, entries, depth);
        hide DecodeItems, DecodeValue, Lex;
        var item;
        st, item := ProcessValue(tok);
        if st.Error? {
          return;
        }
        entries := SetEntry(entries, Index(|entries| + 1), item);
        tok := NextToken();
        if tok == ArrEnd {
          depth := depth - 1;
          return Okay, Table(entries);
        }
        if tok != Comma {
          return Error("Expected comma or array end"), v;
        }
        tok := NextToken();
      }
    }

    /** json_parse_object_context. */
    method ParseObject() returns (st: Status, v: Value)
      requires Valid()
      modifies `ptr, `depth, tmp`length, tmp.buf
      ensures Valid() && ptr >= old(ptr)
      ensures Reads(st, v, DecodeValue(cfg, data, Lexed(ObjBegin, old(ptr)), old(depth)), old(depth))
      decreases |data| - ptr, 1
    {
      ghost var whole := DecodeValue(cfg, data, Lexed(ObjBegin, ptr), depth);
      v := Nil;
      depth := depth + 1;
      if depth > cfg.decodeMaxDepth {
        return Error("too many nested data structures"), v;
      }
      var tok := NextToken();
      if tok == ObjEnd {
        depth := depth - 1;
        return Okay, Table([]);
      }
      var entries: seq<Entry> := [];
      ObjectStarts(cfg, data, old(ptr), depth, Lexed(tok, ptr), whole);
      while true
        invariant Valid() && ptr >= old(ptr) && depth == old(depth) + 1
        invariant whole == DecodeFields(cfg, data, Lexed(tok, ptr), entries, depth)
        decreases |data| - ptr
      {
        ghost var at := Lexed(tok, ptr);
        FieldsUnfold(cfg, data, at, entries, depth);
        hide DecodeFields, DecodeValue, Lex;
        if !tok.StringToken? {
          return Error("Expected object key string"), v;
        }
        var key := tok.s;
        tok := NextToken();
        if tok != Colon {
          return Error("Expected colon"), v;
        }
        tok := NextToken();
        var val;
        st, val := ProcessValue(tok);
        if st.Error? {
          return;
        }
        entries := SetEntry(entries, Name(key), val);
        tok := NextToken();
        if tok == ObjEnd {
          depth := depth - 1;
          return Okay, Table(entries);
        }
        if tok != Comma {
          return Error("Expected comma or object end"), v;
        }
        tok := NextToken();
      }
    }
  }

  /** json_decode. */
  method JsonDecode(cfg: Config, text: string) returns (st: Status, v: Value)
    ensures var d := Decode(cfg, text);
      if d.Decoded? then st == Okay && v == d.v else st == Error(d.message)
  {
    if |text| >= 2 && (text[0] == '\0' || text[1] == '\0') {
      return Error("JSON parser does not support UTF-16 or UTF-32"), Nil;
    }
    var decoder := new Decoder(cfg, text);
    var tok := decoder.NextToken();
    st, v := decoder.ProcessValue(tok);
    if st.Okay? {
      tok := decoder.NextToken();
      if tok != End {
        return Error("Expected the end"), v;
      }
    }
  }
}
