/** Byte-level cookie syntax from src/std/http/cookie.rs: the octet validators,
    the sanitiser, the cookie-value parser and the token table for names.

    Text is a sequence of chars. Where the source converts a char with `c as u8`,
    the model keeps exactly that conversion (AsU8: the low eight bits of the code
    point), so no restriction to ASCII input is needed. */
module CookieSyntax {

  type Byte = b: int | 0 <= b < 256

  /** Rust's `c as u8` on a char: truncation to the low eight bits. */
  function AsU8(c: char): Byte
  {
    (c as int) % 256
  }

  /** On chars below 256 the truncation is the identity. */
  lemma AsU8OfByteChar(c: char)
    requires c as int < 256
    ensures AsU8(c) == c as int
  {
  }

  /** A string all of whose chars are ASCII (below 0x80). */
  predicate IsAscii(s: string)
  {
    forall k :: 0 <= k < |s| ==> s[k] as int < 0x80
  }

  // ---------------------------------------------------------------------------
  // Validators

  /** valid_cookie_value_byte: printable ASCII except DQUOTE, semicolon and backslash. */
  predicate ValidCookieValueByte(b: Byte): (r: bool)
    ensures r <==> Rfc6265CookieOctet(b) || b == ' ' as int || b == ',' as int
  {
    0x20 <= b < 0x7f && b != '"' as int && b != ';' as int && b != '\\' as int
  }

  /** valid_cookie_path_byte: printable ASCII except semicolon. */
  predicate ValidCookiePathByte(b: Byte): (r: bool)
    ensures r <==> Rfc6265PathChar(b)
  {
    0x20 <= b < 0x7f && b != ';' as int
  }

  /** cookie-octet of section 4.1.1 of RFC 6265:
      %x21 / %x23-2B / %x2D-3A / %x3C-5B / %x5D-7E. */
  predicate Rfc6265CookieOctet(b: Byte)
  {
    b == 0x21 || (0x23 <= b <= 0x2B) || (0x2D <= b <= 0x3A) || (0x3C <= b <= 0x5B) || (0x5D <= b <= 0x7E)
  }

  /** A char of path-value in section 4.1.1 of RFC 6265: any CHAR (%x01-7F)
      except the CTLs (%x00-1F and %x7F) and ";". */
  predicate Rfc6265PathChar(b: Byte)
  {
    0x01 <= b <= 0x7F && !(b <= 0x1F || b == 0x7F) && b != ';' as int
  }

  /** Every valid value byte is a valid path byte; the path additionally admits DQUOTE and backslash. */
  lemma ValueByteIsPathByte(b: Byte)
    ensures ValidCookieValueByte(b) ==> ValidCookiePathByte(b)
    ensures ValidCookiePathByte(b) && !ValidCookieValueByte(b) <==> b == '"' as int || b == '\\' as int
  {
  }

  // ---------------------------------------------------------------------------
  // Sanitising

  /** Reference definition: the in-order subsequence of chars whose byte is valid. */
  function Sanitized(valid: Byte -> bool, v: string): string
  {
    if v == [] then []
    else Sanitized(valid, v[..|v| - 1]) + (if valid(AsU8(v[|v| - 1])) then [v[|v| - 1]] else [])
  }

  predicate AllValid(valid: Byte -> bool, v: string)
  {
    forall k :: 0 <= k < |v| ==> valid(AsU8(v[k]))
  }

  /** sanitize_or_warn: a first pass checks every byte; if all are valid the input is
      returned as it is, otherwise a second pass keeps only the valid ones.
      (The field name only feeds a log line and is not modelled.) */
  method SanitizeOrWarn(valid: Byte -> bool, v: string) returns (r: string)
    ensures r == Sanitized(valid, v)
  {
    var ok := true;
    for i := 0 to |v|
      invariant ok <==> AllValid(valid, v[..i])
    {
      if !valid(AsU8(v[i])) {
        ok := false;
      }
    }
    assert v[..|v|] == v;
    if ok {
      SanitizedIdentity(valid, v);
      return v;
    }
    var buf := [];
    for i := 0 to |v|
      invariant buf == Sanitized(valid, v[..i])
    {
      assert v[..i + 1][..i] == v[..i];
      if valid(AsU8(v[i])) {
        buf := buf + [v[i]];
      }
    }
    r := buf;
  }

  /** The sanitised text contains only valid bytes. */
  lemma {:induction false} SanitizedOnlyValid(valid: Byte -> bool, v: string)
    ensures AllValid(valid, Sanitized(valid, v))
    ensures |Sanitized(valid, v)| <= |v|
  {
    if v != [] {
      SanitizedOnlyValid(valid, v[..|v| - 1]);
    }
  }

  /** Sanitising only drops chars, so an ASCII input gives an ASCII output. */
  lemma {:induction false} SanitizedKeepsAscii(valid: Byte -> bool, v: string)
    requires IsAscii(v)
    ensures IsAscii(Sanitized(valid, v))
  {
    if v != [] {
      SanitizedKeepsAscii(valid, v[..|v| - 1]);
    }
  }

  /** The input comes back unchanged exactly when every byte is valid. */
  lemma {:induction false} SanitizedIdentity(valid: Byte -> bool, v: string)
    ensures Sanitized(valid, v) == v <==> AllValid(valid, v)
  {
    SanitizedOnlyValid(valid, v);
    if v != [] {
      var init := v[..|v| - 1];
      SanitizedIdentity(valid, init);
      SanitizedOnlyValid(valid, init);
      if AllValid(valid, v) {
        assert AllValid(valid, init);
        assert v == init + [v[|v| - 1]];
      } else if Sanitized(valid, v) == v {
        assert false;
      }
    }
  }

  /** Sanitising twice changes nothing more. */
  lemma SanitizedIdempotent(valid: Byte -> bool, v: string)
    ensures Sanitized(valid, Sanitized(valid, v)) == Sanitized(valid, v)
  {
    SanitizedOnlyValid(valid, v);
    SanitizedIdentity(valid, Sanitized(valid, v));
  }

  /** Sanitising works piece by piece, so the kept chars stay in their input order. */
  lemma {:induction false} SanitizedAppend(valid: Byte -> bool, a: string, b: string)
    ensures Sanitized(valid, a + b) == Sanitized(valid, a) + Sanitized(valid, b)
    decreases |b|
  {
    if b == [] {
      assert a + b == a;
    } else {
      var b' := b[..|b| - 1];
      assert (a + b)[..|a + b| - 1] == a + b';
      SanitizedAppend(valid, a, b');
    }
  }

  /** Each char is kept as often as it occurs in the input when it is valid, and never otherwise. */
  lemma {:induction false} SanitizedCounts(valid: Byte -> bool, v: string, c: char)
    ensures multiset(Sanitized(valid, v))[c] == if valid(AsU8(c)) then multiset(v)[c] else 0
  {
    if v != [] {
      var init := v[..|v| - 1];
      SanitizedCounts(valid, init, c);
      assert v == init + [v[|v| - 1]];
    }
  }

  /** Sanitising a single char keeps it exactly when its byte is valid. */
  lemma SanitizedSingle(valid: Byte -> bool, c: char)
    ensures Sanitized(valid, [c]) == if valid(AsU8(c)) then [c] else []
  {
    assert [c][..0] == [];
  }

  /** A text of printable ASCII without semicolons is a valid cookie path. */
  lemma PrintablePathValid(v: string)
    requires forall k :: 0 <= k < |v| ==> 0x20 <= v[k] as int < 0x7f && v[k] != ';'
    ensures Sanitized(ValidCookiePathByte, v) == v
  {
    forall k | 0 <= k < |v| ensures ValidCookiePathByte(AsU8(v[k])) {
      AsU8OfByteChar(v[k]);
    }
    SanitizedIdentity(ValidCookiePathByte, v);
  }

  /** The first two example pairs of TestCookieSanitizePath: valid paths are kept. */
  lemma SanitizePathKeepsExamples()
    ensures Sanitized(ValidCookiePathByte, "/path") == "/path"
    ensures Sanitized(ValidCookiePathByte, "/path with space/") == "/path with space/"
  {
    PrintablePathValid("/path");
    PrintablePathValid("/path with space/");
  }

  /** Dropping one invalid char between two runs of valid ones. */
  lemma SanitizePathDropsOne(x: string, bad: char, y: string)
    requires Sanitized(ValidCookiePathByte, x) == x
    requires !ValidCookiePathByte(AsU8(bad))
    ensures Sanitized(ValidCookiePathByte, x + [bad] + y) == x + Sanitized(ValidCookiePathByte, y)
  {
    var p := ValidCookiePathByte;
    SanitizedSingle(p, bad);
    assert Sanitized(p, [bad]) == [];
    SanitizedAppend(p, x, [bad]);
    assert Sanitized(p, x + [bad]) == x;
    SanitizedAppend(p, x + [bad], y);
  }

  /** The quoting rule of sanitize_cookie_value: quote exactly when the text is
      non-empty and holds a space or a comma. */
  function QuotedIfNeeded(s: string): string
  {
    if s != [] && (' ' in s || ',' in s) then "\"" + s + "\"" else s
  }

  /** sanitize_cookie_value. */
  method SanitizeCookieValue(v: string) returns (r: string)
    ensures r == QuotedIfNeeded(Sanitized(ValidCookieValueByte, v))
  {
    r := SanitizeOrWarn(ValidCookieValueByte, v);
    if r == [] {
      return r;
    }
    if ' ' in r || ',' in r {
      r := "\"" + r + "\"";
    }
  }

  /** sanitize_cookie_path. */
  method SanitizeCookiePath(v: string) returns (r: string)
    ensures r == Sanitized(ValidCookiePathByte, v)
  {
    r := SanitizeOrWarn(ValidCookiePathByte, v);
  }

  /** A sanitised cookie value starts with DQUOTE exactly when it was quoted, that is,
      when its valid bytes are non-empty and include a space or a comma. */
  lemma SanitizedValueQuotedIff(v: string)
    ensures var s := Sanitized(ValidCookieValueByte, v);
            var r := QuotedIfNeeded(s);
            (r != [] && r[0] == '"') <==> (s != [] && (' ' in s || ',' in s))
  {
    var s := Sanitized(ValidCookieValueByte, v);
    SanitizedOnlyValid(ValidCookieValueByte, v);
    if s != [] {
      assert ValidCookieValueByte(AsU8(s[0]));
    }
  }

  // ---------------------------------------------------------------------------
  // Parsing a cookie value

  /** str::trim_start_matches for one char. */
  function TrimStartMatches(s: string, c: char): string
  {
    if |s| > 0 && s[0] == c then TrimStartMatches(s[1..], c) else s
  }

  /** str::trim_end_matches for one char. */
  function TrimEndMatches(s: string, c: char): string
  {
    if |s| > 0 && s[|s| - 1] == c then TrimEndMatches(s[..|s| - 1], c) else s
  }

  /** str::trim_matches for one char: every leading and every trailing copy is removed. */
  function TrimMatches(s: string, c: char): string
  {
    TrimEndMatches(TrimStartMatches(s, c), c)
  }

  /** The text parse_cookie_value validates: surrounding quotes are stripped only when
      quotes are allowed, the text is longer than one byte and both ends are DQUOTE. */
  function Unquoted(raw: string, allowDoubleQuote: bool): string
  {
    if allowDoubleQuote && |raw| > 1 && raw[0] == '"' && raw[|raw| - 1] == '"'
    then TrimMatches(raw, '"')
    else raw
  }

  /** What parse_cookie_value returns. */
  function ParsedCookieValue(raw: string, allowDoubleQuote: bool): (string, bool)
  {
    var s := Unquoted(raw, allowDoubleQuote);
    if AllValid(ValidCookieValueByte, s) then (s, true) else ("", false)
  }

  /** parse_cookie_value: strip the quotes, then reject on the first invalid byte. */
  method ParseCookieValue(raw: string, allowDoubleQuote: bool) returns (value: string, ok: bool)
    ensures (value, ok) == ParsedCookieValue(raw, allowDoubleQuote)
  {
    value := raw;
    if allowDoubleQuote && |value| > 1 && value[0] == '"' && value[|value| - 1] == '"' {
      value := TrimMatches(value, '"');
    }
    for i := 0 to |value|
      invariant AllValid(ValidCookieValueByte, value[..i])
    {
      if !ValidCookieValueByte(AsU8(value[i])) {
        return "", false;
      }
    }
    assert value[..|value|] == value;
    ok := true;
  }

  lemma {:induction false} TrimStartMatchesIsSuffix(s: string, c: char)
    ensures |TrimStartMatches(s, c)| <= |s|
    ensures TrimStartMatches(s, c) == s[|s| - |TrimStartMatches(s, c)|..]
  {
    if |s| > 0 && s[0] == c {
      TrimStartMatchesIsSuffix(s[1..], c);
    }
  }

  lemma {:induction false} TrimEndMatchesIsPrefix(s: string, c: char)
    ensures |TrimEndMatches(s, c)| <= |s|
    ensures TrimEndMatches(s, c) == s[..|TrimEndMatches(s, c)|]
  {
    if |s| > 0 && s[|s| - 1] == c {
      TrimEndMatchesIsPrefix(s[..|s| - 1], c);
    }
  }

  /** Trimming a char that does not occur changes nothing. */
  lemma TrimMatchesAbsent(s: string, c: char)
    requires c !in s
    ensures TrimMatches(s, c) == s
  {
  }

  /** The quotes that trim_matches removes are all the leading and trailing ones, so
      a text with two quotes on either side loses all four (Go's parser drops one each). */
  lemma TrimMatchesDropsAllQuotes()
    ensures ParsedCookieValue("\"\"ab\"\"", true) == ("ab", true)
    ensures ParsedCookieValue("\"\"\"", true) == ("", true)
  {
    var q := "\"\"ab\"\"";
    assert TrimStartMatches(q, '"') == TrimStartMatches(q[2..], '"');
    assert q[2..] == "ab\"\"";
    assert TrimEndMatches("ab\"\"", '"') == TrimEndMatches("ab", '"') by {
      assert "ab\"\""[..3] == "ab\"";
      assert "ab\""[..2] == "ab";
    }
    assert Unquoted(q, true) == "ab";
    var t := "\"\"\"";
    assert TrimStartMatches(t, '"') == TrimStartMatches(t[3..], '"');
    assert Unquoted(t, true) == "";
  }

  /** A successful parse yields only valid bytes, and the text is the input itself or a
      slice of it; a failed parse yields "". */
  lemma ParsedCookieValueShape(raw: string, allowDoubleQuote: bool)
    ensures var (v, ok) := ParsedCookieValue(raw, allowDoubleQuote);
            (ok ==> AllValid(ValidCookieValueByte, v) && '"' !in v
                    && exists i, j :: 0 <= i <= j <= |raw| && v == raw[i..j])
            && (!ok ==> v == [])
  {
    var s := Unquoted(raw, allowDoubleQuote);
    var (v, ok) := ParsedCookieValue(raw, allowDoubleQuote);
    if ok {
      if s == raw {
        assert v == raw[0..|raw|];
      } else {
        var l := TrimStartMatches(raw, '"');
        TrimStartMatchesIsSuffix(raw, '"');
        TrimEndMatchesIsPrefix(l, '"');
        var i := |raw| - |l|;
        assert v == raw[i..i + |v|];
      }
    }
  }

  /** Round trip: the value sanitize_cookie_value writes parses back, with quotes allowed,
      to the sanitised text. */
  lemma SanitizeThenParse(v: string)
    ensures ParsedCookieValue(QuotedIfNeeded(Sanitized(ValidCookieValueByte, v)), true)
            == (Sanitized(ValidCookieValueByte, v), true)
  {
    var s := Sanitized(ValidCookieValueByte, v);
    SanitizedOnlyValid(ValidCookieValueByte, v);
    assert '"' !in s;
    if QuotedIfNeeded(s) != s {
      QuotesStripped(s);
    } else {
      UnquotedPlain(s);
    }
  }

  /** Stripping the quotes of a quoted quote-free text gives the text back. */
  lemma QuotesStripped(s: string)
    requires '"' !in s
    ensures Unquoted("\"" + s + "\"", true) == s
  {
    var q := "\"" + s + "\"";
    assert q[0] == '"' && q[1..] == s + "\"";
    if s == [] {
      assert q[1..][0] == '"' && q[1..][1..] == [];
      assert TrimStartMatches(q[1..], '"') == [];
      assert TrimMatches(q, '"') == [];
    } else {
      assert s[0] in s && s[|s| - 1] in s;
      assert TrimStartMatches(q, '"') == s + "\"" by {
        assert (s + "\"")[0] == s[0];
      }
      assert TrimEndMatches(s + "\"", '"') == TrimEndMatches(s, '"') by {
        assert (s + "\"")[..|s|] == s;
      }
    }
  }

  /** A quote-free text is left as it is. */
  lemma UnquotedPlain(s: string)
    requires '"' !in s
    ensures Unquoted(s, true) == s
  {
    if |s| > 1 { assert s[0] in s; }
  }

  // ---------------------------------------------------------------------------
  // Cookie names

  /** IS_TOKEN_TABLE: the chars the table maps to true, grouped by kind. */
  const TokenPunct: set<char> := {'!', '#', '$', '%', '&', '\'', '*', '+', '-', '.', '^', '_', '`', '|', '~'}
  const TokenDigits: set<char> := {'0', '1', '2', '3', '4', '5', '6', '7', '8', '9'}
  const TokenUpperAM: set<char> := {'A', 'B', 'C', 'D', 'E', 'F', 'G', 'H', 'I', 'J', 'K', 'L', 'M'}
  const TokenUpperNZ: set<char> := {'N', 'O', 'P', 'Q', 'R', 'S', 'T', 'U', 'W', 'V', 'X', 'Y', 'Z'}
  const TokenLowerAM: set<char> := {'a', 'b', 'c', 'd', 'e', 'f', 'g', 'h', 'i', 'j', 'k', 'l', 'm'}
  const TokenLowerNZ: set<char> := {'n', 'o', 'p', 'q', 'r', 's', 't', 'u', 'v', 'w', 'x', 'y', 'z'}
  const TokenTable: set<char> :=
    TokenPunct + TokenDigits + TokenUpperAM + TokenUpperNZ + TokenLowerAM + TokenLowerNZ

  /** is_token_rune: the truncated byte is below 127 and the char is in the table. */
  predicate IsTokenRune(r: char): (ok: bool)
    ensures ok ==> '!' <= r <= '~'
  {
    TokenGroups(r);
    AsU8(r) < 127 && r in TokenTable
  }

  predicate IsNotToken(r: char)
  {
    !IsTokenRune(r)
  }

  /** The punctuation that section 3.2.6 of RFC 7230 admits in a token. */
  predicate IsTcharPunct(c: char)
  {
    c == '!' || c == '#' || c == '$' || c == '%' || c == '&' || c == '\'' || c == '*'
    || c == '+' || c == '-' || c == '.' || c == '^' || c == '_' || c == '`' || c == '|' || c == '~'
  }

  /** tchar of section 3.2.6 of RFC 7230, the independent definition the table encodes. */
  predicate IsTchar(c: char)
  {
    ('a' <= c <= 'z') || ('A' <= c <= 'Z') || ('0' <= c <= '9') || IsTcharPunct(c)
  }

  lemma TokenGroups(c: char)
    ensures c in TokenPunct <==> IsTcharPunct(c)
    ensures c in TokenDigits <==> '0' <= c <= '9'
    ensures c in TokenUpperAM <==> 'A' <= c <= 'M'
    ensures c in TokenUpperNZ <==> 'N' <= c <= 'Z'
    ensures c in TokenLowerAM <==> 'a' <= c <= 'm'
    ensures c in TokenLowerNZ <==> 'n' <= c <= 'z'
  {
  }

  /** The table is exactly RFC 7230's tchar; the `< 127` guard adds nothing. */
  lemma TokenRuneIsTchar(c: char)
    ensures IsTokenRune(c) <==> IsTchar(c)
  {
    TokenGroups(c);
    if IsTchar(c) {
      AsU8OfByteChar(c);
    }
  }

  /** strings::index_func: the index of the first char satisfying f, or -1. */
  function IndexFunc(s: string, f: char -> bool): (i: int)
    ensures -1 <= i < |s|
  {
    if s == [] then -1
    else if f(s[0]) then 0
    else var j := IndexFunc(s[1..], f); if j < 0 then -1 else j + 1
  }

  /** index_func finds the first char satisfying f, and reports -1 exactly
      when there is none. */
  lemma {:induction false} IndexFuncFirst(s: string, f: char -> bool)
    ensures IndexFunc(s, f) == -1 <==> forall k :: 0 <= k < |s| ==> !f(s[k])
    ensures IndexFunc(s, f) >= 0 ==> f(s[IndexFunc(s, f)]) && forall k :: 0 <= k < IndexFunc(s, f) ==> !f(s[k])
  {
    if s != [] && !f(s[0]) {
      IndexFuncFirst(s[1..], f);
      assert forall k :: 1 <= k < |s| ==> s[k] == s[1..][k - 1];
    }
  }

  /** is_cookie_name_valid. */
  predicate IsCookieNameValid(raw: string): (ok: bool)
    ensures ok <==> raw != [] && forall k :: 0 <= k < |raw| ==> IsTokenRune(raw[k])
  {
    IndexFuncFirst(raw, IsNotToken);
    raw != [] && IndexFunc(raw, IsNotToken) < 0
  }

  /** A name is valid exactly when it is a non-empty RFC 7230 token. */
  lemma CookieNameValidIff(raw: string)
    ensures IsCookieNameValid(raw) <==> raw != [] && forall k :: 0 <= k < |raw| ==> IsTchar(raw[k])
  {
    IndexFuncFirst(raw, IsNotToken);
    forall k | 0 <= k < |raw| {
      TokenRuneIsTchar(raw[k]);
    }
  }

  /** TestIndexFunc: "Cookie-1" is a valid name, "" is not. */
  lemma CookieNameExamples()
    ensures IsCookieNameValid("Cookie-1")
    ensures !IsCookieNameValid("")
  {
    CookieNameValidIff("Cookie-1");
  }

  /** The delimiters the header syntax relies on are never part of a valid name. */
  lemma CookieNameHasNoDelimiters(raw: string)
    requires IsCookieNameValid(raw)
    ensures '=' !in raw && ';' !in raw && ' ' !in raw && '"' !in raw && ',' !in raw
  {
    CookieNameValidIff(raw);
  }
}
