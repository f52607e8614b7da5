/** The Cookie record and the Cookie request-header reader of
    src/std/http/cookie.rs (read_cookies).

    The header map is abstracted to the sequence of the raw "Cookie" header
    values, in header order; each value is a text whose chars stand for its
    bytes. */
module Cookies {
  import opened Wrappers
  import opened TextProto
  import opened CookieSyntax
  import CookieDomain

  /** Rust's i32. */
  type I32 = x: int | -0x8000_0000 <= x < 0x8000_0000

  /** Cookie. The Expires time is not part of this model (its Time type is not
      part of it); raw_expires, raw and unparsed are kept as plain data. */
  datatype Cookie = Cookie(
    name: string,
    value: string,
    path: string,
    domain: string,
    rawExpires: string,
    maxAge: I32,
    secure: bool,
    httpOnly: bool,
    sameSite: I32,
    raw: string,
    unparsed: seq<string>)

  /** The cookie read_cookies builds: the name and value, every other field at
      its default. */
  function ReadCookie(name: string, value: string): Cookie
  {
    Cookie(name, value, "", "", "", 0, false, false, 0, "", [])
  }

  /** The bytes HeaderValue::to_str accepts: visible ASCII and tab. */
  predicate IsHeaderChar(c: char)
  {
    (' ' <= c < '\U{7F}') || c == '\t'
  }

  /** A text HeaderValue::to_str accepts. */
  predicate IsHeaderText(s: string)
  {
    forall k :: 0 <= k < |s| ==> IsHeaderChar(s[k])
  }

  lemma HeaderTextAppend(a: string, b: string)
    requires IsHeaderText(a) && IsHeaderText(b)
    ensures IsHeaderText(a + b)
  {
  }

  /** `line.to_str().unwrap_or_default()`: the value itself when it is visible
      ASCII, the empty text otherwise. */
  function HeaderText(raw: string): (s: string)
    ensures IsHeaderText(raw) ==> s == raw
    ensures !IsHeaderText(raw) ==> s == []
  {
    if IsHeaderText(raw) then raw else []
  }

  /** str::find for one char: the index of its first occurrence, or -1. */
  function FindChar(s: string, c: char): (i: int)
    ensures -1 <= i < |s|
    ensures i == -1 <==> c !in s
    ensures i >= 0 ==> s[i] == c && c !in s[..i]
  {
    IndexFuncFirst(s, x => x == c);
    IndexFunc(s, x => x == c)
  }

  /** The text before the first semicolon, or all of it. */
  function FirstPart(line: string): (part: string)
    ensures ';' !in part
    ensures ';' !in line ==> part == line
    ensures ';' in line ==> |part| < |line| && part == line[..|part|] && line[|part|] == ';'
  {
    var i := FindChar(line, ';');
    if i >= 0 then line[..i] else line
  }

  /** The name of a trimmed pair: the text before the first '=', or all of it. */
  function PairName(p: string): (name: string)
    ensures '=' !in name
    ensures '=' !in p ==> name == p
    ensures '=' in p ==> |name| < |p| && name == p[..|name|] && p[|name|] == '='
  {
    var j := FindChar(p, '=');
    if j >= 0 then p[..j] else p
  }

  /** The value of a trimmed pair: the text after the first '=', or nothing. */
  function PairValue(p: string): (val: string)
    ensures '=' !in p ==> val == []
    ensures '=' in p ==> val == p[|PairName(p)| + 1..]
  {
    var j := FindChar(p, '=');
    if j >= 0 then p[j + 1..] else []
  }

  /** The cookie a split pair yields: kept when the name is a valid token,
      matches the filter and the value parses (quotes allowed). */
  function NamedCookie(name: string, val: string, filter: string): Option<Cookie>
  {
    if !IsCookieNameValid(name) then None
    else if filter != [] && filter != name then None
    else
      var (v, ok) := ParsedCookieValue(val, true);
      if !ok then None else Some(ReadCookie(name, v))
  }

  /** The cookie one `name=value` pair yields: trimmed, then split at the
      first '='. */
  function PairCookie(part: string, filter: string): Option<Cookie>
  {
    var p := Trimmed(part);
    if p == [] then None else NamedCookie(PairName(p), PairValue(p), filter)
  }

  /** What read_cookies takes from one header line as written: its first pair
      only (the rest of the line is cut off and never looked at). */
  function LineCookie(raw: string, filter: string): Option<Cookie>
  {
    var line := Trimmed(HeaderText(raw));
    if |line| == 0 then None else PairCookie(FirstPart(line), filter)
  }

  function OptionToSeq<T>(o: Option<T>): (s: seq<T>)
    ensures |s| <= 1
    ensures o.None? <==> s == []
    ensures o.Some? ==> s == [o.value]
  {
    match o
    case None => []
    case Some(x) => [x]
  }

  /** The cookies read_cookies returns for the header lines, in header order. */
  function ReadCookiesSpec(lines: seq<string>, filter: string): seq<Cookie>
    decreases |lines|
  {
    if lines == [] then []
    else ReadCookiesSpec(lines[..|lines| - 1], filter) + OptionToSeq(LineCookie(lines[|lines| - 1], filter))
  }

  /** The body of read_cookies' loop for one header line; each `continue` of
      the source is a return of None here. */
  method ReadLine(raw: string, filter: string) returns (c: Option<Cookie>)
    ensures c == LineCookie(raw, filter)
  {
    var line := TrimString(HeaderText(raw));
    if |line| == 0 {
      return None;
    }
    var part: string;
    var splitIndex := FindChar(line, ';');
    if splitIndex >= 0 {
      part := line[..splitIndex];
      line := line[splitIndex + 1..];
    } else {
      part := line;
      line := [];
    }
    assert LineCookie(raw, filter) == PairCookie(part, filter);
    part := TrimString(part);
    if part == [] {
      return None;
    }
    var name := part;
    var val := [];
    var j := FindChar(part, '=');
    if j >= 0 {
      val := name[j + 1..];
      name := name[..j];
    }
    assert name == PairName(part) && val == PairValue(part);
    if !IsCookieNameValid(name) {
      return None;
    }
    if filter != [] && filter != name {
      return None;
    }
    var v, ok := ParseCookieValue(val, true);
    if !ok {
      return None;
    }
    return Some(ReadCookie(name, v));
  }

  /** read_cookies. */
  method ReadCookies(lines: seq<string>, filter: string) returns (cookies: seq<Cookie>)
    ensures cookies == ReadCookiesSpec(lines, filter)
  {
    if |lines| == 0 {
      return [];
    }
    cookies := [];
    for i := 0 to |lines|
      invariant cookies == ReadCookiesSpec(lines[..i], filter)
    {
      assert lines[..i + 1][..i] == lines[..i];
      var c := ReadLine(lines[i], filter);
      if c.Some? {
        cookies := cookies + [c.value];
      }
    }
    assert lines[..|lines|] == lines;
  }

  // ---------------------------------------------------------------------------
  // Properties of the reader

  /** A cookie read from a pair has a valid name, passes the filter, holds a
      value parse_cookie_value accepts, and has every other field at its default. */
  predicate WellRead(c: Cookie, filter: string)
  {
    && IsCookieNameValid(c.name)
    && (filter != [] ==> c.name == filter)
    && AllValid(ValidCookieValueByte, c.value)
    && '"' !in c.value
    && c == ReadCookie(c.name, c.value)
  }

  lemma PairCookieSound(part: string, filter: string)
    ensures PairCookie(part, filter).Some? ==> WellRead(PairCookie(part, filter).value, filter)
  {
    var p := Trimmed(part);
    if p != [] {
      NamedCookieSound(PairName(p), PairValue(p), filter);
    }
  }

  lemma NamedCookieSound(name: string, val: string, filter: string)
    ensures NamedCookie(name, val, filter).Some? ==> WellRead(NamedCookie(name, val, filter).value, filter)
  {
    ParsedCookieValueShape(val, true);
  }

  /** Every returned cookie is well read. */
  lemma {:induction false} ReadCookiesSound(lines: seq<string>, filter: string)
    ensures forall c :: c in ReadCookiesSpec(lines, filter) ==> WellRead(c, filter)
    decreases |lines|
  {
    if lines != [] {
      ReadCookiesSound(lines[..|lines| - 1], filter);
      PairCookieSound(FirstPart(Trimmed(HeaderText(lines[|lines| - 1]))), filter);
    }
  }

  /** Each header line contributes at most one cookie. */
  lemma {:induction false} ReadCookiesAtMostOnePerLine(lines: seq<string>, filter: string)
    ensures |ReadCookiesSpec(lines, filter)| <= |lines|
    decreases |lines|
  {
    if lines != [] {
      ReadCookiesAtMostOnePerLine(lines[..|lines| - 1], filter);
    }
  }

  /** Header order is kept: the cookies of two runs of lines are the cookies of
      the first run followed by those of the second. */
  lemma {:induction false} ReadCookiesAppend(a: seq<string>, b: seq<string>, filter: string)
    ensures ReadCookiesSpec(a + b, filter) == ReadCookiesSpec(a, filter) + ReadCookiesSpec(b, filter)
    decreases |b|
  {
    if b == [] {
      assert a + b == a;
    } else {
      var b' := b[..|b| - 1];
      assert (a + b)[..|a + b| - 1] == a + b';
      ReadCookiesAppend(a, b', filter);
    }
  }

  /** Trimming keeps a text whose first and last chars are not ASCII space. */
  lemma TrimKeepsPrefix(x: string, y: string)
    requires x != [] && !IsAsciiSpace(x[0]) && !IsAsciiSpace(x[|x| - 1])
    requires y == [] || y[0] == ';'
    ensures FirstPart(Trimmed(x + y)) == FirstPart(x)
  {
    assert TrimLeft(x + y) == x + y;
    TrimRightOverPrefix(x, y);
    TrimRightIsPrefix(x + y);
    var t := TrimRight(x + y);
    if y == [] {
      assert x + y == x;
    } else {
      assert t[..|x|] == x;
      if |t| > |x| {
        assert t[|x|] == ';';
      } else {
        assert t == x;
      }
      if ';' in x {
        var i := FindChar(x, ';');
        assert t[i] == ';' && t[..i] == x[..i];
      }
    }
  }

  /** Trailing ASCII space is removed only after the last non-space char. */
  lemma {:induction false} TrimRightOverPrefix(x: string, y: string)
    requires x != [] && !IsAsciiSpace(x[|x| - 1])
    ensures |TrimRight(x + y)| >= |x| && TrimRight(x + y)[..|x|] == x
    decreases |y|
  {
    if y == [] {
      assert x + y == x;
    } else {
      var s := x + y;
      if IsAsciiSpace(s[|s| - 1]) {
        assert s[..|s| - 1] == x + y[..|y| - 1];
        TrimRightOverPrefix(x, y[..|y| - 1]);
      } else {
        TrimRightIsPrefix(s);
        assert s[..|x|] == x;
      }
    }
  }

  /** The pair `name=val` with a valid name splits back into the name and the value. */
  lemma PairOfNameValue(name: string, val: string, filter: string)
    requires IsCookieNameValid(name)
    requires val == [] || !IsAsciiSpace(val[|val| - 1])
    ensures PairCookie(name + "=" + val, filter) ==
      if filter != [] && filter != name then None
      else
        var (v, ok) := ParsedCookieValue(val, true);
        if ok then Some(ReadCookie(name, v)) else None
  {
    var pair := name + "=" + val;
    CookieNameHasNoDelimiters(name);
    CookieNameValidIff(name);
    assert pair[0] == name[0];
    assert IsTchar(name[0]);
    assert !IsAsciiSpace(pair[|pair| - 1]);
    TrimmedIdentity(pair);
    assert pair[|name|] == '=' && pair[..|name|] == name;
    assert FindChar(pair, '=') == |name|;
    assert pair[|name| + 1..] == val;
  }

  /** The pair is all the reader looks at before the first semicolon. */
  lemma FirstPartOfPair(name: string, val: string, rest: string)
    requires IsCookieNameValid(name)
    requires ';' !in val
    requires val == [] || !IsAsciiSpace(val[|val| - 1])
    requires rest == [] || rest[0] == ';'
    ensures FirstPart(Trimmed(name + "=" + val + rest)) == name + "=" + val
  {
    var pair := name + "=" + val;
    CookieNameHasNoDelimiters(name);
    CookieNameValidIff(name);
    assert pair[0] == name[0];
    assert IsTchar(name[0]);
    assert !IsAsciiSpace(pair[|pair| - 1]);
    assert ';' !in name + "=";
    assert ';' !in pair;
    TrimKeepsPrefix(pair, rest);
  }

  /** A line `name=val` followed by attributes reads as the pair: the cookie is
      the name with the parsed value, when the name passes the filter. */
  lemma LineOfPair(name: string, val: string, rest: string, filter: string)
    requires IsCookieNameValid(name)
    requires IsHeaderText(name + "=" + val + rest)
    requires ';' !in val
    requires val == [] || !IsAsciiSpace(val[|val| - 1])
    requires rest == [] || rest[0] == ';'
    ensures LineCookie(name + "=" + val + rest, filter) ==
      if filter != [] && filter != name then None
      else
        var (v, ok) := ParsedCookieValue(val, true);
        if ok then Some(ReadCookie(name, v)) else None
  {
    var line := name + "=" + val + rest;
    assert HeaderText(line) == line;
    FirstPartOfPair(name, val, rest);
    assert |Trimmed(line)| > 0;
    PairOfNameValue(name, val, filter);
  }

  /** The value bytes of a plain pair: valid value bytes other than the space. */
  predicate PlainValue(val: string)
  {
    forall k :: 0 <= k < |val| ==> 0x20 < val[k] as int < 0x7f && val[k] != '"' && val[k] != ';' && val[k] != '\\'
  }

  /** A plain `name=value` line with a valid name and a value of valid bytes
      that neither starts with DQUOTE nor ends with a space reads back as that
      cookie. */
  lemma PlainLine(name: string, val: string)
    requires IsCookieNameValid(name) && PlainValue(val)
    ensures LineCookie(name + "=" + val, "") == Some(ReadCookie(name, val))
  {
    PlainLineIsHeaderText(name, val);
    ValidValueHasNoSpaceEnd(val);
    assert name + "=" + val + "" == name + "=" + val;
    LineOfPair(name, val, "", "");
  }

  /** The names and values of the reading test are plain. */
  lemma ExampleParts(n1: string, v1: string, n2: string, v2: string)
    requires n1 == "Cookie-1" && v1 == "v$1" && n2 == "c2" && v2 == "v2"
    ensures IsCookieNameValid(n1) && IsCookieNameValid(n2) && PlainValue(v1) && PlainValue(v2)
  {
    CookieNameExamples();
    ExampleName(n2);
    ExampleValues(v1, v2);
  }

  lemma ExampleName(n: string)
    requires n == "c2"
    ensures IsCookieNameValid(n)
  {
    CookieNameValidIff(n);
  }

  lemma ExampleValues(v1: string, v2: string)
    requires v1 == "v$1" && v2 == "v2"
    ensures PlainValue(v1) && PlainValue(v2)
  {
  }

  /** A line that reads as one cookie contributes exactly that cookie. */
  lemma SingleLine(l: string, filter: string, c: Cookie)
    requires LineCookie(l, filter) == Some(c)
    ensures ReadCookiesSpec([l], filter) == [c]
  {
    assert [l][..0] == [];
  }

  /** Two lines contribute the cookies of the first, then those of the second. */
  lemma TwoLines(l1: string, l2: string, filter: string)
    ensures ReadCookiesSpec([l1, l2], filter) == ReadCookiesSpec([l1], filter) + ReadCookiesSpec([l2], filter)
  {
    ReadCookiesAppend([l1], [l2], filter);
    assert [l1] + [l2] == [l1, l2];
  }

  /** PlainLine, for a line given as a whole. */
  lemma PlainLineAt(l: string, name: string, val: string)
    requires IsCookieNameValid(name) && PlainValue(val)
    requires l == name + "=" + val
    ensures LineCookie(l, "") == Some(ReadCookie(name, val))
  {
    PlainLine(name, val);
  }

  /** The reading test, for any two plain lines: two Cookie lines give two
      cookies, in header order (ExampleParts shows that the test's lines
      "Cookie-1=v$1" and "c2=v2" are plain). */
  lemma ReadCookiesExample(n1: string, v1: string, n2: string, v2: string)
    requires IsCookieNameValid(n1) && PlainValue(v1) && IsCookieNameValid(n2) && PlainValue(v2)
    ensures ReadCookiesSpec([n1 + "=" + v1, n2 + "=" + v2], "") == [ReadCookie(n1, v1), ReadCookie(n2, v2)]
  {
    var l1, l2 := n1 + "=" + v1, n2 + "=" + v2;
    PlainLineAt(l1, n1, v1);
    PlainLineAt(l2, n2, v2);
    SingleLine(l1, "", ReadCookie(n1, v1));
    SingleLine(l2, "", ReadCookie(n2, v2));
    TwoLines(l1, l2, "");
  }

  // ---------------------------------------------------------------------------
  // Only the first pair of a line is read

  /** As written, a line holding two pairs yields the first cookie only, and a
      filter naming the second pair finds nothing. */
  lemma FirstPairOnly(n1: string, v1: string, n2: string, v2: string)
    requires IsCookieNameValid(n1) && PlainValue(v1) && IsCookieNameValid(n2) && PlainValue(v2)
    requires n1 != n2
    ensures LineCookie(n1 + "=" + v1 + ("; " + (n2 + "=" + v2)), "") == Some(ReadCookie(n1, v1))
    ensures LineCookie(n1 + "=" + v1 + ("; " + (n2 + "=" + v2)), n2) == None
  {
    PlainLineIsHeaderText(n2, v2);
    HeaderTextAppend("; ", n2 + "=" + v2);
    PlainPairThenRest(n1, v1, "; " + (n2 + "=" + v2), "");
    PlainPairThenRest(n1, v1, "; " + (n2 + "=" + v2), n2);
  }

  /** A plain pair followed by attributes reads as that pair. */
  lemma PlainPairThenRest(name: string, val: string, rest: string, filter: string)
    requires IsCookieNameValid(name) && PlainValue(val)
    requires IsHeaderText(rest) && (rest == [] || rest[0] == ';')
    ensures LineCookie(name + "=" + val + rest, filter) ==
      if filter != [] && filter != name then None else Some(ReadCookie(name, val))
  {
    PlainLineIsHeaderText(name, val);
    HeaderTextAppend(name + "=" + val, rest);
    ValidValueHasNoSpaceEnd(val);
    LineOfPair(name, val, rest, filter);
  }

  /** A plain pair is header text. */
  lemma PlainLineIsHeaderText(name: string, val: string)
    requires IsCookieNameValid(name) && PlainValue(val)
    ensures IsHeaderText(name + "=" + val)
  {
    CookieNameValidIff(name);
    assert forall k :: 0 <= k < |name| ==> IsTchar(name[k]);
    HeaderTextAppend(name, "=");
    HeaderTextAppend(name + "=", val);
  }

  /** A plain value has no semicolon and does not end in ASCII space. */
  lemma ValidValueHasNoSpaceEnd(v: string)
    requires PlainValue(v)
    ensures ';' !in v && (v == [] || !IsAsciiSpace(v[|v| - 1]))
    ensures ParsedCookieValue(v, true) == (v, true)
  {
    forall k | 0 <= k < |v| ensures ValidCookieValueByte(AsU8(v[k])) {
      AsU8OfByteChar(v[k]);
    }
  }

  /** The counterexample's parts: "a=1; b=2". */
  lemma FirstPairOnlyParts(n1: string, v1: string, n2: string, v2: string)
    requires n1 == "a" && v1 == "1" && n2 == "b" && v2 == "2"
    ensures IsCookieNameValid(n1) && PlainValue(v1) && IsCookieNameValid(n2) && PlainValue(v2) && n1 != n2
  {
    CookieNameValidIff(n1);
    CookieNameValidIff(n2);
  }

  /** The cookies of a sequence of pairs, in order. */
  function PairsCookies(parts: seq<string>, filter: string): seq<Cookie>
    decreases |parts|
  {
    if parts == [] then []
    else PairsCookies(parts[..|parts| - 1], filter) + OptionToSeq(PairCookie(parts[|parts| - 1], filter))
  }

  /** Intended: every ';'-separated pair of the line is read, as the original Go
      reader does. */
  function LineCookiesIntended(raw: string, filter: string): seq<Cookie>
  {
    PairsCookies(CookieDomain.SplitOn(Trimmed(HeaderText(raw)), ';'), filter)
  }

  /** Intended read_cookies: the pairs of every line, in header order. */
  function ReadCookiesIntended(lines: seq<string>, filter: string): seq<Cookie>
    decreases |lines|
  {
    if lines == [] then []
    else ReadCookiesIntended(lines[..|lines| - 1], filter) + LineCookiesIntended(lines[|lines| - 1], filter)
  }

  lemma {:induction false} PairsCookiesAppend(a: seq<string>, b: seq<string>, filter: string)
    ensures PairsCookies(a + b, filter) == PairsCookies(a, filter) + PairsCookies(b, filter)
    decreases |b|
  {
    if b == [] {
      assert a + b == a;
    } else {
      var b' := b[..|b| - 1];
      assert (a + b)[..|a + b| - 1] == a + b';
      PairsCookiesAppend(a, b', filter);
    }
  }

  /** The intended reader extends the written one: what the written reader takes
      from a line is the start of what the intended reader takes from it. */
  lemma IntendedExtendsLine(raw: string, filter: string)
    ensures var parts := CookieDomain.SplitOn(Trimmed(HeaderText(raw)), ';');
            LineCookiesIntended(raw, filter) == OptionToSeq(LineCookie(raw, filter)) + PairsCookies(parts[1..], filter)
  {
    var line := Trimmed(HeaderText(raw));
    var parts := CookieDomain.SplitOn(line, ';');
    SplitHeadIsFirstPart(line);
    PairsCookiesCons(parts[0], parts[1..], filter);
    assert parts == [parts[0]] + parts[1..];
    if line == [] {
      assert PairCookie(FirstPart(line), filter) == None;
    }
  }

  /** The first ';'-separated piece of a line is the part the reader keeps. */
  lemma SplitHeadIsFirstPart(line: string)
    ensures CookieDomain.SplitOn(line, ';')[0] == FirstPart(line)
  {
    if ';' in line {
      CookieDomain.SplitOnFirst(line, ';', FindChar(line, ';'));
    }
  }

  lemma PairsCookiesCons(p: string, rest: seq<string>, filter: string)
    ensures PairsCookies([p] + rest, filter) == OptionToSeq(PairCookie(p, filter)) + PairsCookies(rest, filter)
  {
    PairsCookiesAppend([p], rest, filter);
    assert [p][..0] == [];
  }

  /** A line of two plain pairs is header text that trimming leaves alone. */
  lemma TwoPairLineKept(n1: string, v1: string, n2: string, v2: string)
    requires IsCookieNameValid(n1) && PlainValue(v1) && IsCookieNameValid(n2) && PlainValue(v2)
    ensures var line := n1 + "=" + v1 + "; " + (n2 + "=" + v2);
            Trimmed(HeaderText(line)) == line
  {
    var p1, p2 := n1 + "=" + v1, n2 + "=" + v2;
    PlainLineIsHeaderText(n1, v1);
    PlainLineIsHeaderText(n2, v2);
    PlainLineEdges(n1, v1);
    PlainLineEdges(n2, v2);
    JoinedKept(p1, p2);
  }

  /** Two header texts joined by "; " form a header text; when the outer ends
      are not ASCII space, trimming leaves it alone. */
  lemma JoinedKept(p1: string, p2: string)
    requires IsHeaderText(p1) && IsHeaderText(p2)
    requires p1 != [] && !IsAsciiSpace(p1[0])
    requires p2 != [] && !IsAsciiSpace(p2[|p2| - 1])
    ensures Trimmed(HeaderText(p1 + "; " + p2)) == p1 + "; " + p2
  {
    var line := p1 + "; " + p2;
    HeaderTextAppend("; ", p2);
    HeaderTextAppend(p1, "; " + p2);
    assert line == p1 + ("; " + p2);
    assert line[0] == p1[0];
    assert line[|line| - 1] == p2[|p2| - 1];
    TrimmedIdentity(line);
  }

  /** Two semicolon-free pairs joined by "; " split back into the first pair
      and the second one with its leading space. */
  lemma TwoPairLineSplit(p1: string, p2: string)
    requires ';' !in p1 && ';' !in p2
    ensures CookieDomain.SplitOn(p1 + "; " + p2, ';') == [p1, " " + p2]
  {
    assert p1 + "; " + p2 == p1 + [';'] + (" " + p2);
    assert ';' !in " " + p2;
    CookieDomain.SplitOnJoin(p1, ';', " " + p2);
  }

  /** Two parts that each read as a cookie give both, in order. */
  lemma TwoPairsRead(x: string, y: string, filter: string, a: Cookie, b: Cookie)
    requires PairCookie(x, filter) == Some(a) && PairCookie(y, filter) == Some(b)
    ensures PairsCookies([x, y], filter) == [a, b]
  {
    PairsCookiesAppend([x], [y], filter);
    assert [x] + [y] == [x, y];
    assert [x][..0] == [] && [y][..0] == [];
  }

  /** A plain pair, with or without a leading space, reads as its cookie. */
  lemma PlainPairRead(name: string, val: string)
    requires IsCookieNameValid(name) && PlainValue(val)
    ensures PairCookie(name + "=" + val, "") == Some(ReadCookie(name, val))
    ensures PairCookie(" " + (name + "=" + val), "") == Some(ReadCookie(name, val))
  {
    ValidValueHasNoSpaceEnd(val);
    PairOfNameValue(name, val, "");
    PairCookieIgnoresSpace(name + "=" + val, "");
  }

  /** Intended: a line of two plain pairs yields both cookies, in order. */
  lemma IntendedReadsBothPairs(n1: string, v1: string, n2: string, v2: string)
    requires IsCookieNameValid(n1) && PlainValue(v1) && IsCookieNameValid(n2) && PlainValue(v2)
    ensures LineCookiesIntended(n1 + "=" + v1 + "; " + (n2 + "=" + v2), "") == [ReadCookie(n1, v1), ReadCookie(n2, v2)]
  {
    var p1, p2 := n1 + "=" + v1, n2 + "=" + v2;
    TwoPairLineKept(n1, v1, n2, v2);
    PlainLineHasNoSemicolon(n1, v1);
    PlainLineHasNoSemicolon(n2, v2);
    TwoPairLineSplit(p1, p2);
    PlainPairRead(n1, v1);
    PlainPairRead(n2, v2);
    TwoPairsRead(p1, " " + p2, "", ReadCookie(n1, v1), ReadCookie(n2, v2));
  }

  /** A plain pair neither starts nor ends with ASCII space. */
  lemma PlainLineEdges(name: string, val: string)
    requires IsCookieNameValid(name) && PlainValue(val)
    ensures var p := name + "=" + val; !IsAsciiSpace(p[0]) && !IsAsciiSpace(p[|p| - 1])
  {
    CookieNameValidIff(name);
    assert IsTchar(name[0]);
  }

  /** A plain pair holds no semicolon. */
  lemma PlainLineHasNoSemicolon(name: string, val: string)
    requires IsCookieNameValid(name) && PlainValue(val)
    ensures ';' !in name + "=" + val
  {
    CookieNameHasNoDelimiters(name);
    ValidValueHasNoSpaceEnd(val);
    assert ';' !in name + "=";
  }

  /** Leading space before a pair is trimmed away. */
  lemma PairCookieIgnoresSpace(x: string, filter: string)
    ensures PairCookie(" " + x, filter) == PairCookie(x, filter)
  {
    assert (" " + x)[1..] == x;
    assert TrimLeft(" " + x) == TrimLeft(x);
  }
}
