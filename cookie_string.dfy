/** Cookie::string of src/std/http/cookie.rs: the serialisation of a cookie for a
    Cookie or Set-Cookie header.

    The Expires attribute depends on a Time type that is not part of this model:
    the caller passes `expires`, None when valid_cookie_expires rejects the time
    and otherwise the formatted date. */
module CookieText {
  import opened Wrappers
  import opened TextProto
  import opened CookieSyntax
  import opened Cookies
  import CookieDomain

  // ---------------------------------------------------------------------------
  // SameSite

  /** The four SameSite constants as the source declares them: all equal 1. */
  const SameSiteDefaultMode: I32 := 1
  const SameSiteLaxMode: I32 := 1
  const SameSiteStrictMode: I32 := 1
  const SameSiteNoneMode: I32 := 1

  /** The match on same_site, arms in source order (default, none, lax,
      strict, anything else), for given values of the four constants: the
      attribute value written, if any. */
  function SameSiteName(mode: I32, default: I32, none: I32, lax: I32, strict: I32): (name: Option<string>)
    ensures mode == default ==> name == None
    ensures name.Some? ==> name.value == "None" || name.value == "Lax" || name.value == "Strict"
  {
    if mode == default then None
    else if mode == none then Some("None")
    else if mode == lax then Some("Lax")
    else if mode == strict then Some("Strict")
    else None
  }

  /** As written: the constants all being 1, no SameSite attribute is ever
      written, whatever the cookie says. */
  lemma SameSiteNeverWritten(mode: I32)
    ensures SameSiteName(mode, SameSiteDefaultMode, SameSiteNoneMode, SameSiteLaxMode, SameSiteStrictMode) == None
  {
  }

  /** The distinct values of the original Go code: default 1, lax 2, strict 3,
      none 4. */
  function SameSiteNameIntended(mode: I32): Option<string>
  {
    SameSiteName(mode, 1, 4, 2, 3)
  }

  /** With distinct constants every named mode gets its own attribute value. */
  lemma SameSiteIntendedModes(mode: I32)
    ensures SameSiteNameIntended(mode) == Some("Lax") <==> mode == 2
    ensures SameSiteNameIntended(mode) == Some("Strict") <==> mode == 3
    ensures SameSiteNameIntended(mode) == Some("None") <==> mode == 4
    ensures SameSiteNameIntended(mode) == None <==> !(2 <= mode <= 4)
  {
  }

  // ---------------------------------------------------------------------------
  // Max-Age digits

  /** i32::to_string for a non-negative value: decimal digits, no leading zero. */
  function NatToDecimal(n: nat): (d: string)
    ensures |d| >= 1
    ensures forall k :: 0 <= k < |d| ==> CookieDomain.IsDigit(d[k])
    decreases n
  {
    if n < 10 then [('0' as int + n) as char]
    else NatToDecimal(n / 10) + [('0' as int + n % 10) as char]
  }

  /** The digits read back as the number, and only 0 starts with '0'. */
  lemma {:induction false} NatToDecimalValue(n: nat)
    ensures CookieDomain.DecimalValue(NatToDecimal(n)) == n
    ensures NatToDecimal(n)[0] == '0' <==> n == 0
    decreases n
  {
    var d := NatToDecimal(n);
    if n >= 10 {
      NatToDecimalValue(n / 10);
      assert d[..|d| - 1] == NatToDecimal(n / 10);
      assert d[0] == NatToDecimal(n / 10)[0];
    } else {
      assert d[..0] == [];
    }
  }

  // ---------------------------------------------------------------------------
  // The serialisation

  /** `name=value` with the value sanitised and quoted when needed. */
  function NameValueText(c: Cookie): string
  {
    c.name + "=" + QuotedIfNeeded(Sanitized(ValidCookieValueByte, c.value))
  }

  /** An attribute: its key text and value when present, nothing otherwise. */
  function Attr(present: bool, key: string, val: string): string
  {
    if present then key + val else []
  }

  function MaxAgeText(maxAge: I32): string
  {
    if maxAge > 0 then "; Max-Age=" + NatToDecimal(maxAge)
    else if maxAge < 0 then "; Max-Age=0"
    else []
  }

  function OptionText(o: Option<string>): string
  {
    if o.Some? then o.value else []
  }

  /** The text written for a cookie, attribute after attribute in the order
      Cookie::string writes them. `domainOk` is the verdict of the domain check
      and `sameSite` the SameSite value chosen by the match. */
  function Serialized(c: Cookie, expires: Option<string>, domainOk: bool, sameSite: Option<string>): string
  {
    NameValueText(c)
    + Attr(|c.path| > 0, "; Path=", Sanitized(ValidCookiePathByte, c.path))
    + Attr(|c.domain| > 0 && domainOk, "; Domain=", CookieDomain.DropLeadingDot(c.domain))
    + Attr(expires.Some?, "; Expires=", OptionText(expires))
    + MaxAgeText(c.maxAge)
    + Attr(c.httpOnly, "; HttpOnly", [])
    + Attr(c.secure, "; Secure", [])
    + Attr(sameSite.Some?, "; SameSite=", OptionText(sameSite))
  }

  /** Cookie::string as written: the empty text when the name is VALID, the
      as-written domain check and the SameSite match on constants that are all 1. */
  function CookieTextAsWritten(c: Cookie, expires: Option<string>): string
  {
    if IsCookieNameValid(c.name) then []
    else
      Serialized(c, expires, CookieDomain.ValidCookieDomain(c.domain),
                 SameSiteName(c.sameSite, SameSiteDefaultMode, SameSiteNoneMode, SameSiteLaxMode, SameSiteStrictMode))
  }

  /** Cookie::string as its doc comment and the original Go code mean it: the
      empty text when the name is INVALID, the stricter domain check and the
      distinct SameSite constants. */
  function CookieTextIntended(c: Cookie, expires: Option<string>): string
  {
    if !IsCookieNameValid(c.name) then []
    else Serialized(c, expires, CookieDomain.ValidCookieDomainIntended(c.domain), SameSiteNameIntended(c.sameSite))
  }

  // Each block of Cookie::string that writes one attribute, as a method
  // returning the text the block appends to the buffer.

  method PathAttribute(path: string) returns (t: string)
    ensures t == Attr(|path| > 0, "; Path=", Sanitized(ValidCookiePathByte, path))
  {
    t := [];
    if |path| > 0 {
      var p := SanitizeCookiePath(path);
      t := "; Path=" + p;
    }
  }

  /** A valid domain is written without its leading dot, an invalid one is
      dropped. */
  method DomainAttribute(domain: string) returns (t: string)
    ensures t == Attr(|domain| > 0 && CookieDomain.ValidCookieDomain(domain), "; Domain=", CookieDomain.DropLeadingDot(domain))
  {
    t := [];
    if |domain| > 0 {
      if CookieDomain.ValidCookieDomain(domain) {
        var d := domain;
        if d[0] == '.' {
          d := d[1..];
        }
        t := "; Domain=" + d;
      }
    }
  }

  method ExpiresAttribute(expires: Option<string>) returns (t: string)
    ensures t == Attr(expires.Some?, "; Expires=", OptionText(expires))
  {
    t := [];
    if expires.Some? {
      t := "; Expires=" + expires.value;
    }
  }

  method MaxAgeAttribute(maxAge: I32) returns (t: string)
    ensures t == MaxAgeText(maxAge)
  {
    t := [];
    if maxAge > 0 {
      t := "; Max-Age=" + NatToDecimal(maxAge);
    } else if maxAge < 0 {
      t := "; Max-Age=0";
    }
  }

  /** The HttpOnly and Secure blocks. */
  method FlagAttribute(flag: bool, key: string) returns (t: string)
    ensures t == Attr(flag, key, [])
  {
    t := [];
    if flag {
      t := key;
    }
  }

  /** The match on same_site, on the constants as declared. */
  method SameSiteAttribute(mode: I32) returns (t: string)
    ensures var name := SameSiteName(mode, SameSiteDefaultMode, SameSiteNoneMode, SameSiteLaxMode, SameSiteStrictMode);
            t == Attr(name.Some?, "; SameSite=", OptionText(name))
  {
    t := [];
    if mode == SameSiteDefaultMode {
    } else if mode == SameSiteNoneMode {
      t := "; SameSite=None";
    } else if mode == SameSiteLaxMode {
      t := "; SameSite=Lax";
    } else if mode == SameSiteStrictMode {
      t := "; SameSite=Strict";
    }
  }

  /** Cookie::string: appends the name, the sanitised value and then each
      attribute block's text to a buffer. */
  method CookieString(c: Cookie, expires: Option<string>) returns (b: string)
    ensures b == CookieTextAsWritten(c, expires)
  {
    if IsCookieNameValid(c.name) {
      return [];
    }
    b := c.name + "=";
    var v := SanitizeCookieValue(c.value);
    b := b + v;
    var t := PathAttribute(c.path);
    b := b + t;
    t := DomainAttribute(c.domain);
    b := b + t;
    t := ExpiresAttribute(expires);
    b := b + t;
    t := MaxAgeAttribute(c.maxAge);
    b := b + t;
    t := FlagAttribute(c.httpOnly, "; HttpOnly");
    b := b + t;
    t := FlagAttribute(c.secure, "; Secure");
    b := b + t;
    t := SameSiteAttribute(c.sameSite);
    b := b + t;
  }

  // ---------------------------------------------------------------------------
  // What the text says

  /** Max-Age is written for a non-zero max_age only: its digits read back as
      the number of seconds when positive, and as 0 when negative. */
  lemma MaxAgeWritten(maxAge: I32)
    ensures MaxAgeText(maxAge) == [] <==> maxAge == 0
    ensures maxAge > 0 ==> exists d :: MaxAgeText(maxAge) == "; Max-Age=" + d
                                     && (forall k :: 0 <= k < |d| ==> CookieDomain.IsDigit(d[k]))
                                     && CookieDomain.DecimalValue(d) == maxAge && d[0] != '0'
    ensures maxAge < 0 ==> MaxAgeText(maxAge) == "; Max-Age=0"
  {
    if maxAge > 0 {
      NatToDecimalValue(maxAge);
    }
  }

  /** One attribute body when the attribute is written, none otherwise. */
  function Piece(present: bool, body: string): seq<string>
  {
    if present then [body] else []
  }

  /** The `name=value` pair and then the attribute bodies, in the order
      Cookie::string writes them; in the text each body follows a ';'. */
  function TextPieces(c: Cookie, expires: Option<string>, domainOk: bool, sameSite: Option<string>): seq<string>
  {
    [NameValueText(c)]
    + Piece(|c.path| > 0, " Path=" + Sanitized(ValidCookiePathByte, c.path))
    + Piece(|c.domain| > 0 && domainOk, " Domain=" + CookieDomain.DropLeadingDot(c.domain))
    + Piece(expires.Some?, " Expires=" + OptionText(expires))
    + MaxAgePiece(c.maxAge)
    + Piece(c.httpOnly, " HttpOnly")
    + Piece(c.secure, " Secure")
    + Piece(sameSite.Some?, " SameSite=" + OptionText(sameSite))
  }

  /** Appending an attribute whose body holds no ';' adds that one body to the
      ';'-separated pieces. */
  lemma SplitAttr(x: string, present: bool, key: string, body: string, val: string)
    requires key == ";" + body && ';' !in body && (present ==> ';' !in val)
    ensures CookieDomain.SplitOn(x + Attr(present, key, val), ';')
            == CookieDomain.SplitOn(x, ';') + Piece(present, body + val)
  {
    if present {
      assert ';' !in body + val;
      assert x + Attr(present, key, val) == x + [';'] + (body + val);
      CookieDomain.SplitOnJoin(x, ';', body + val);
    } else {
      assert x + Attr(present, key, val) == x;
    }
  }

  function MaxAgePiece(maxAge: I32): seq<string>
  {
    if maxAge > 0 then [" Max-Age=" + NatToDecimal(maxAge)] else if maxAge < 0 then [" Max-Age=0"] else []
  }

  lemma SplitMaxAge(x: string, maxAge: I32)
    ensures CookieDomain.SplitOn(x + MaxAgeText(maxAge), ';')
            == CookieDomain.SplitOn(x, ';') + MaxAgePiece(maxAge)
  {
    if maxAge > 0 {
      var d := NatToDecimal(maxAge);
      assert ';' !in d;
      SplitAttr(x, true, "; Max-Age=", " Max-Age=", d);
      assert MaxAgeText(maxAge) == Attr(true, "; Max-Age=", d);
    } else if maxAge < 0 {
      SplitAttr(x, true, "; Max-Age=0", " Max-Age=0", []);
      assert MaxAgeText(maxAge) == Attr(true, "; Max-Age=0", []);
      assert " Max-Age=0" + [] == " Max-Age=0";
    } else {
      assert x + MaxAgeText(maxAge) == x;
    }
  }

  /** Split at ';', the text is the `name=value` pair followed by the attribute
      bodies, in order, provided no piece holds a ';' of its own. */
  lemma SerializedPieces(c: Cookie, expires: Option<string>, domainOk: bool, sameSite: Option<string>)
    requires ';' !in NameValueText(c)
    requires domainOk ==> ';' !in c.domain
    requires ';' !in OptionText(expires) && ';' !in OptionText(sameSite)
    ensures CookieDomain.SplitOn(Serialized(c, expires, domainOk, sameSite), ';')
            == TextPieces(c, expires, domainOk, sameSite)
  {
    FrontPieces(c, expires, domainOk);
    BackPieces(FrontText(c, expires, domainOk), c.maxAge, c.httpOnly, c.secure, sameSite);
  }

  /** Max-Age, HttpOnly, Secure and SameSite add their bodies, in order. */
  lemma BackPieces(x: string, maxAge: I32, httpOnly: bool, secure: bool, sameSite: Option<string>)
    requires ';' !in OptionText(sameSite)
    ensures CookieDomain.SplitOn(x + MaxAgeText(maxAge) + Attr(httpOnly, "; HttpOnly", []) + Attr(secure, "; Secure", [])
                                 + Attr(sameSite.Some?, "; SameSite=", OptionText(sameSite)), ';')
            == CookieDomain.SplitOn(x, ';') + MaxAgePiece(maxAge) + Piece(httpOnly, " HttpOnly") + Piece(secure, " Secure")
               + Piece(sameSite.Some?, " SameSite=" + OptionText(sameSite))
  {
    SplitMaxAge(x, maxAge);
    AttributeKeys();
    SplitThree(x + MaxAgeText(maxAge), httpOnly, "; HttpOnly", " HttpOnly", [], secure, "; Secure", " Secure", [],
               sameSite.Some?, "; SameSite=", " SameSite=", OptionText(sameSite));
    assert " HttpOnly" + [] == " HttpOnly" && " Secure" + [] == " Secure";
  }

  /** Each attribute key is a ';' followed by a body with no ';'. */
  lemma AttributeKeys()
    ensures "; Path=" == ";" + " Path=" && ';' !in " Path="
    ensures "; Domain=" == ";" + " Domain=" && ';' !in " Domain="
    ensures "; Expires=" == ";" + " Expires=" && ';' !in " Expires="
    ensures "; HttpOnly" == ";" + " HttpOnly" && ';' !in " HttpOnly"
    ensures "; Secure" == ";" + " Secure" && ';' !in " Secure"
    ensures "; SameSite=" == ";" + " SameSite=" && ';' !in " SameSite="
  {
  }

  /** Three attributes in a row add their three bodies, in order. */
  lemma SplitThree(x: string, p1: bool, k1: string, b1: string, v1: string,
                   p2: bool, k2: string, b2: string, v2: string,
                   p3: bool, k3: string, b3: string, v3: string)
    requires k1 == ";" + b1 && ';' !in b1 && (p1 ==> ';' !in v1)
    requires k2 == ";" + b2 && ';' !in b2 && (p2 ==> ';' !in v2)
    requires k3 == ";" + b3 && ';' !in b3 && (p3 ==> ';' !in v3)
    ensures CookieDomain.SplitOn(x + Attr(p1, k1, v1) + Attr(p2, k2, v2) + Attr(p3, k3, v3), ';')
            == CookieDomain.SplitOn(x, ';') + Piece(p1, b1 + v1) + Piece(p2, b2 + v2) + Piece(p3, b3 + v3)
  {
    var x1 := x + Attr(p1, k1, v1);
    SplitAttr(x, p1, k1, b1, v1);
    var x2 := x1 + Attr(p2, k2, v2);
    SplitAttr(x1, p2, k2, b2, v2);
    SplitAttr(x2, p3, k3, b3, v3);
  }

  /** The text up to and including Expires. */
  function FrontText(c: Cookie, expires: Option<string>, domainOk: bool): string
  {
    NameValueText(c)
    + Attr(|c.path| > 0, "; Path=", Sanitized(ValidCookiePathByte, c.path))
    + Attr(|c.domain| > 0 && domainOk, "; Domain=", CookieDomain.DropLeadingDot(c.domain))
    + Attr(expires.Some?, "; Expires=", OptionText(expires))
  }

  lemma FrontPieces(c: Cookie, expires: Option<string>, domainOk: bool)
    requires ';' !in NameValueText(c)
    requires domainOk ==> ';' !in c.domain
    requires ';' !in OptionText(expires)
    ensures CookieDomain.SplitOn(FrontText(c, expires, domainOk), ';')
            == [NameValueText(c)]
               + Piece(|c.path| > 0, " Path=" + Sanitized(ValidCookiePathByte, c.path))
               + Piece(|c.domain| > 0 && domainOk, " Domain=" + CookieDomain.DropLeadingDot(c.domain))
               + Piece(expires.Some?, " Expires=" + OptionText(expires))
  {
    var x0 := NameValueText(c);
    var p := Sanitized(ValidCookiePathByte, c.path);
    SanitizedOnlyValid(ValidCookiePathByte, c.path);
    var d := CookieDomain.DropLeadingDot(c.domain);
    assert domainOk ==> ';' !in d;
    AttributeKeys();
    SplitThree(x0, |c.path| > 0, "; Path=", " Path=", p, |c.domain| > 0 && domainOk, "; Domain=", " Domain=", d,
               expires.Some?, "; Expires=", " Expires=", OptionText(expires));
    assert CookieDomain.SplitOn(x0, ';') == [x0];
  }



  // ---------------------------------------------------------------------------
  // Reading the intended text back

  /** Everything Cookie::string writes after the `name=value` pair. */
  function AttributesText(c: Cookie, expires: Option<string>, domainOk: bool, sameSite: Option<string>): string
  {
    Attr(|c.path| > 0, "; Path=", Sanitized(ValidCookiePathByte, c.path))
    + Attr(|c.domain| > 0 && domainOk, "; Domain=", CookieDomain.DropLeadingDot(c.domain))
    + Attr(expires.Some?, "; Expires=", OptionText(expires))
    + MaxAgeText(c.maxAge)
    + Attr(c.httpOnly, "; HttpOnly", [])
    + Attr(c.secure, "; Secure", [])
    + Attr(sameSite.Some?, "; SameSite=", OptionText(sameSite))
  }

  lemma Assoc(a: string, b: string, c: string)
    ensures a + b + c == a + (b + c)
  {
  }

  /** The text is the pair followed by the attributes. */
  lemma SerializedIsPairThenAttributes(c: Cookie, expires: Option<string>, domainOk: bool, sameSite: Option<string>)
    ensures Serialized(c, expires, domainOk, sameSite) == NameValueText(c) + AttributesText(c, expires, domainOk, sameSite)
  {
    var n := NameValueText(c);
    var a1 := Attr(|c.path| > 0, "; Path=", Sanitized(ValidCookiePathByte, c.path));
    var a2 := Attr(|c.domain| > 0 && domainOk, "; Domain=", CookieDomain.DropLeadingDot(c.domain));
    var a3 := Attr(expires.Some?, "; Expires=", OptionText(expires));
    var a4 := MaxAgeText(c.maxAge);
    var a5 := Attr(c.httpOnly, "; HttpOnly", []);
    var a6 := Attr(c.secure, "; Secure", []);
    var a7 := Attr(sameSite.Some?, "; SameSite=", OptionText(sameSite));
    Assoc(n, a1, a2);
    Assoc(n, a1 + a2, a3);
    Assoc(n, a1 + a2 + a3, a4);
    Assoc(n, a1 + a2 + a3 + a4, a5);
    Assoc(n, a1 + a2 + a3 + a4 + a5, a6);
    Assoc(n, a1 + a2 + a3 + a4 + a5 + a6, a7);
  }

  /** Empty, or starting with the ';' that ends the pair before it. */
  predicate LeadsWithSemicolon(s: string)
  {
    s == [] || s[0] == ';'
  }

  lemma LeadsWithSemicolonAppend(a: string, b: string)
    requires LeadsWithSemicolon(a) && LeadsWithSemicolon(b)
    ensures LeadsWithSemicolon(a + b)
  {
  }

  /** An attribute of header chars is header text and starts with its ';'. */
  lemma AttrHeader(present: bool, key: string, val: string)
    requires IsHeaderText(key) && (present ==> IsHeaderText(val)) && (key == [] || key[0] == ';')
    requires present ==> key != []
    ensures IsHeaderText(Attr(present, key, val)) && LeadsWithSemicolon(Attr(present, key, val))
  {
    if present {
      HeaderTextAppend(key, val);
    }
  }

  lemma AttributeKeysHeader()
    ensures IsHeaderText("; Path=") && IsHeaderText("; Domain=") && IsHeaderText("; Expires=")
    ensures IsHeaderText("; HttpOnly") && IsHeaderText("; Secure") && IsHeaderText("; SameSite=")
    ensures IsHeaderText(" Max-Age=0")
  {
  }

  /** A valid byte of an ASCII value or path is a printable ASCII char. */
  lemma SanitizedHeader(valid: Byte -> bool, v: string)
    requires IsAscii(v)
    requires forall b: Byte :: valid(b) ==> 0x20 <= b < 0x7f
    ensures IsHeaderText(Sanitized(valid, v))
    ensures forall k :: 0 <= k < |Sanitized(valid, v)| ==> ' ' <= Sanitized(valid, v)[k] < '\U{7F}'
  {
    var s := Sanitized(valid, v);
    SanitizedKeepsAscii(valid, v);
    SanitizedOnlyValid(valid, v);
    forall k | 0 <= k < |s| ensures ' ' <= s[k] < '\U{7F}' {
      AsU8OfByteChar(s[k]);
      assert valid(AsU8(s[k]));
    }
  }

  /** The written value of an ASCII cookie value: header text, no ';', and no
      trailing space. */
  lemma ValueTextShape(v: string)
    requires IsAscii(v)
    ensures IsHeaderText(QuotedIfNeeded(Sanitized(ValidCookieValueByte, v)))
    ensures ';' !in QuotedIfNeeded(Sanitized(ValidCookieValueByte, v))
    ensures var q := QuotedIfNeeded(Sanitized(ValidCookieValueByte, v)); q == [] || !IsAsciiSpace(q[|q| - 1])
  {
    var s := Sanitized(ValidCookieValueByte, v);
    SanitizedHeader(ValidCookieValueByte, v);
    SanitizedOnlyValid(ValidCookieValueByte, v);
    assert ';' !in s;
    if QuotedIfNeeded(s) != s {
      HeaderTextAppend("\"", s);
      HeaderTextAppend("\"" + s, "\"");
    } else if s != [] {
      assert s[|s| - 1] in s;
    }
  }

  /** The attributes of the intended text are header text and start with ';'. */
  lemma IntendedAttributesShape(c: Cookie, expires: Option<string>)
    requires IsAscii(c.path)
    requires expires.Some? ==> IsHeaderText(expires.value)
    ensures var a := AttributesText(c, expires, CookieDomain.ValidCookieDomainIntended(c.domain), SameSiteNameIntended(c.sameSite));
            IsHeaderText(a) && LeadsWithSemicolon(a)
  {
    var ok := CookieDomain.ValidCookieDomainIntended(c.domain);
    var ss := SameSiteNameIntended(c.sameSite);
    AttributeKeysHeader();
    SanitizedHeader(ValidCookiePathByte, c.path);
    var a1 := Attr(|c.path| > 0, "; Path=", Sanitized(ValidCookiePathByte, c.path));
    AttrHeader(|c.path| > 0, "; Path=", Sanitized(ValidCookiePathByte, c.path));
    var d := CookieDomain.DropLeadingDot(c.domain);
    assert ok ==> IsHeaderText(d);
    var a2 := Attr(|c.domain| > 0 && ok, "; Domain=", d);
    AttrHeader(|c.domain| > 0 && ok, "; Domain=", d);
    var a3 := Attr(expires.Some?, "; Expires=", OptionText(expires));
    AttrHeader(expires.Some?, "; Expires=", OptionText(expires));
    var a4 := MaxAgeText(c.maxAge);
    MaxAgeHeader(c.maxAge);
    var a5 := Attr(c.httpOnly, "; HttpOnly", []);
    AttrHeader(c.httpOnly, "; HttpOnly", []);
    var a6 := Attr(c.secure, "; Secure", []);
    AttrHeader(c.secure, "; Secure", []);
    SameSiteHeader(c.sameSite);
    var a7 := Attr(ss.Some?, "; SameSite=", OptionText(ss));
    AttrHeader(ss.Some?, "; SameSite=", OptionText(ss));
    JoinSeven(a1, a2, a3, a4, a5, a6, a7);
  }

  lemma JoinSeven(a1: string, a2: string, a3: string, a4: string, a5: string, a6: string, a7: string)
    requires IsHeaderText(a1) && IsHeaderText(a2) && IsHeaderText(a3) && IsHeaderText(a4)
    requires IsHeaderText(a5) && IsHeaderText(a6) && IsHeaderText(a7)
    requires LeadsWithSemicolon(a1) && LeadsWithSemicolon(a2) && LeadsWithSemicolon(a3) && LeadsWithSemicolon(a4)
    requires LeadsWithSemicolon(a5) && LeadsWithSemicolon(a6) && LeadsWithSemicolon(a7)
    ensures IsHeaderText(a1 + a2 + a3 + a4 + a5 + a6 + a7) && LeadsWithSemicolon(a1 + a2 + a3 + a4 + a5 + a6 + a7)
  {
    LeadsWithSemicolonAppend(a1, a2);
    LeadsWithSemicolonAppend(a1 + a2, a3);
    LeadsWithSemicolonAppend(a1 + a2 + a3, a4);
    LeadsWithSemicolonAppend(a1 + a2 + a3 + a4, a5);
    LeadsWithSemicolonAppend(a1 + a2 + a3 + a4 + a5, a6);
    LeadsWithSemicolonAppend(a1 + a2 + a3 + a4 + a5 + a6, a7);
  }

  lemma MaxAgeHeader(maxAge: I32)
    ensures IsHeaderText(MaxAgeText(maxAge)) && LeadsWithSemicolon(MaxAgeText(maxAge))
  {
    if maxAge > 0 {
      var d := NatToDecimal(maxAge);
      assert IsHeaderText("; Max-Age=");
      HeaderTextAppend("; Max-Age=", d);
    } else if maxAge < 0 {
      assert IsHeaderText("; Max-Age=0");
    }
  }

  lemma SameSiteHeader(mode: I32)
    ensures IsHeaderText(OptionText(SameSiteNameIntended(mode)))
    ensures ';' !in OptionText(SameSiteNameIntended(mode))
  {
  }

  /** A `name=value` pair written by Cookie::string, followed by any
      attribute text, reads back as the name with the sanitised value. */
  lemma PairTextReadsBack(name: string, v: string, rest: string)
    requires IsCookieNameValid(name) && IsAscii(v)
    requires IsHeaderText(rest) && LeadsWithSemicolon(rest)
    ensures LineCookie(name + "=" + QuotedIfNeeded(Sanitized(ValidCookieValueByte, v)) + rest, [])
            == Some(ReadCookie(name, Sanitized(ValidCookieValueByte, v)))
  {
    var q := QuotedIfNeeded(Sanitized(ValidCookieValueByte, v));
    ValueTextShape(v);
    CookieNameValidIff(name);
    assert IsHeaderText(name + "=");
    HeaderTextAppend(name + "=", q);
    HeaderTextAppend(name + "=" + q, rest);
    LineOfPair(name, q, rest, []);
    SanitizeThenParse(v);
  }

  /** The intended Cookie::string reads back through read_cookies' line
      parser as the cookie's name with its sanitised value, whatever
      attributes follow. */
  lemma IntendedTextReadsBack(c: Cookie, expires: Option<string>)
    requires IsCookieNameValid(c.name) && IsAscii(c.value) && IsAscii(c.path)
    requires expires.Some? ==> IsHeaderText(expires.value)
    ensures LineCookie(CookieTextIntended(c, expires), [])
            == Some(ReadCookie(c.name, Sanitized(ValidCookieValueByte, c.value)))
  {
    var ok := CookieDomain.ValidCookieDomainIntended(c.domain);
    var ss := SameSiteNameIntended(c.sameSite);
    SerializedIsPairThenAttributes(c, expires, ok, ss);
    IntendedAttributesShape(c, expires);
    PairTextReadsBack(c.name, c.value, AttributesText(c, expires, ok, ss));
  }

  // ---------------------------------------------------------------------------
  // Which attributes the intended text carries

  /** The two letters after the leading space of an attribute body. */
  function Tag(x: string): string
  {
    if |x| >= 3 && x[0] == ' ' then x[1..3] else []
  }

  lemma TagOfBody(key: string, val: string)
    requires |key| >= 3 && key[0] == ' '
    ensures Tag(key + val) == key[1..3]
  {
    assert (key + val)[1..3] == key[1..3];
  }

  lemma LiteralTags()
    ensures " Path="[1..3] == "Pa" && " Domain="[1..3] == "Do" && " Expires="[1..3] == "Ex"
    ensures " Max-Age="[1..3] == "Ma" && " Max-Age=0"[1..3] == "Ma" && Tag(" HttpOnly") == "Ht"
    ensures Tag(" Secure") == "Se" && " SameSite="[1..3] == "Sa"
  {
  }

  lemma PieceTags(c: Cookie, expires: Option<string>, domainOk: bool, sameSite: Option<string>)
    requires c.name != [] && c.name[0] != ' '
    ensures Tag(NameValueText(c)) == []
    ensures Tag(" Path=" + Sanitized(ValidCookiePathByte, c.path)) == "Pa"
    ensures Tag(" Domain=" + CookieDomain.DropLeadingDot(c.domain)) == "Do"
    ensures Tag(" Expires=" + OptionText(expires)) == "Ex"
    ensures forall x :: x in MaxAgePiece(c.maxAge) ==> Tag(x) == "Ma"
    ensures Tag(" HttpOnly") == "Ht" && Tag(" Secure") == "Se"
    ensures Tag(" SameSite=" + OptionText(sameSite)) == "Sa"
  {
    assert NameValueText(c)[0] == c.name[0];
    LiteralTags();
    TagOfBody(" Path=", Sanitized(ValidCookiePathByte, c.path));
    TagOfBody(" Domain=", CookieDomain.DropLeadingDot(c.domain));
    TagOfBody(" Expires=", OptionText(expires));
    if c.maxAge > 0 {
      TagOfBody(" Max-Age=", NatToDecimal(c.maxAge));
    }
    TagOfBody(" SameSite=", OptionText(sameSite));
  }

  /** Each attribute body sits among the pieces exactly when Cookie::string
      writes that attribute; no other piece carries its tag. */
  lemma PiecesByAttribute(c: Cookie, expires: Option<string>, domainOk: bool, sameSite: Option<string>)
    requires c.name != [] && c.name[0] != ' '
    ensures var ps := TextPieces(c, expires, domainOk, sameSite);
            && (" Path=" + Sanitized(ValidCookiePathByte, c.path) in ps <==> |c.path| > 0)
            && (" Domain=" + CookieDomain.DropLeadingDot(c.domain) in ps <==> |c.domain| > 0 && domainOk)
            && (" Expires=" + OptionText(expires) in ps <==> expires.Some?)
            && (c.maxAge > 0 ==> " Max-Age=" + NatToDecimal(c.maxAge) in ps)
            && (c.maxAge < 0 ==> " Max-Age=0" in ps)
            && (c.maxAge == 0 ==> forall x :: x in ps ==> Tag(x) != "Ma")
            && (" HttpOnly" in ps <==> c.httpOnly)
            && (" Secure" in ps <==> c.secure)
            && (" SameSite=" + OptionText(sameSite) in ps <==> sameSite.Some?)
  {
    PathPieceIn(c, expires, domainOk, sameSite);
    DomainPieceIn(c, expires, domainOk, sameSite);
    ExpiresPieceIn(c, expires, domainOk, sameSite);
    MaxAgePieceIn(c, expires, domainOk, sameSite);
    HttpOnlyPieceIn(c, expires, domainOk, sameSite);
    SecurePieceIn(c, expires, domainOk, sameSite);
    SameSitePieceIn(c, expires, domainOk, sameSite);
  }

  lemma PathPieceIn(c: Cookie, expires: Option<string>, domainOk: bool, sameSite: Option<string>)
    requires c.name != [] && c.name[0] != ' '
    ensures " Path=" + Sanitized(ValidCookiePathByte, c.path) in TextPieces(c, expires, domainOk, sameSite) <==> |c.path| > 0
  {
    PieceTags(c, expires, domainOk, sameSite);
  }

  lemma DomainPieceIn(c: Cookie, expires: Option<string>, domainOk: bool, sameSite: Option<string>)
    requires c.name != [] && c.name[0] != ' '
    ensures " Domain=" + CookieDomain.DropLeadingDot(c.domain) in TextPieces(c, expires, domainOk, sameSite) <==> |c.domain| > 0 && domainOk
  {
    PieceTags(c, expires, domainOk, sameSite);
  }

  lemma ExpiresPieceIn(c: Cookie, expires: Option<string>, domainOk: bool, sameSite: Option<string>)
    requires c.name != [] && c.name[0] != ' '
    ensures " Expires=" + OptionText(expires) in TextPieces(c, expires, domainOk, sameSite) <==> expires.Some?
  {
    PieceTags(c, expires, domainOk, sameSite);
  }

  lemma MaxAgePieceIn(c: Cookie, expires: Option<string>, domainOk: bool, sameSite: Option<string>)
    requires c.name != [] && c.name[0] != ' '
    ensures var ps := TextPieces(c, expires, domainOk, sameSite);
            && (c.maxAge > 0 ==> " Max-Age=" + NatToDecimal(c.maxAge) in ps)
            && (c.maxAge < 0 ==> " Max-Age=0" in ps)
            && (c.maxAge == 0 ==> forall x :: x in ps ==> Tag(x) != "Ma")
  {
    if c.maxAge == 0 {
      NoMaxAgePiece(c, expires, domainOk, sameSite);
    } else {
      var ps := TextPieces(c, expires, domainOk, sameSite);
      var m := MaxAgePiece(c.maxAge);
      assert ps[|ps| - |m| - |Piece(c.httpOnly, " HttpOnly")| - |Piece(c.secure, " Secure")|
                - |Piece(sameSite.Some?, " SameSite=" + OptionText(sameSite))|] == m[0];
    }
  }

  lemma NoMaxAgePiece(c: Cookie, expires: Option<string>, domainOk: bool, sameSite: Option<string>)
    requires c.name != [] && c.name[0] != ' ' && c.maxAge == 0
    ensures forall x :: x in TextPieces(c, expires, domainOk, sameSite) ==> Tag(x) != "Ma"
  {
    PieceTags(c, expires, domainOk, sameSite);
    assert MaxAgePiece(c.maxAge) == [];
  }

  lemma SameSitePieceIn(c: Cookie, expires: Option<string>, domainOk: bool, sameSite: Option<string>)
    requires c.name != [] && c.name[0] != ' '
    ensures " SameSite=" + OptionText(sameSite) in TextPieces(c, expires, domainOk, sameSite) <==> sameSite.Some?
  {
    PieceTags(c, expires, domainOk, sameSite);
  }

  lemma HttpOnlyPieceIn(c: Cookie, expires: Option<string>, domainOk: bool, sameSite: Option<string>)
    requires c.name != [] && c.name[0] != ' '
    ensures " HttpOnly" in TextPieces(c, expires, domainOk, sameSite) <==> c.httpOnly
  {
    PieceTags(c, expires, domainOk, sameSite);
  }

  lemma SecurePieceIn(c: Cookie, expires: Option<string>, domainOk: bool, sameSite: Option<string>)
    requires c.name != [] && c.name[0] != ' '
    ensures " Secure" in TextPieces(c, expires, domainOk, sameSite) <==> c.secure
  {
    PieceTags(c, expires, domainOk, sameSite);
  }

  /** The intended text, split at ';', starts with the `name=value` pair and
      holds the Path body exactly when there is a path, the Domain body
      exactly when the domain is a valid domain name or IPv4 address, and the
      Expires body exactly when there is a valid expiry. */
  lemma IntendedAttributesWritten(c: Cookie, expires: Option<string>)
    requires IsCookieNameValid(c.name) && IsAscii(c.value)
    requires expires.Some? ==> ';' !in expires.value
    ensures var ps := CookieDomain.SplitOn(CookieTextIntended(c, expires), ';');
            && ps[0] == c.name + "=" + QuotedIfNeeded(Sanitized(ValidCookieValueByte, c.value))
            && (" Path=" + Sanitized(ValidCookiePathByte, c.path) in ps <==> |c.path| > 0)
            && (" Domain=" + CookieDomain.DropLeadingDot(c.domain) in ps <==>
                  |c.domain| > 0 && CookieDomain.ValidCookieDomainIntended(c.domain))
            && (" Expires=" + OptionText(expires) in ps <==> expires.Some?)
  {
    var ok := CookieDomain.ValidCookieDomainIntended(c.domain);
    var ss := SameSiteNameIntended(c.sameSite);
    IntendedPieces(c, expires);
    CookieNameHasNoDelimiters(c.name);
    assert c.name[0] in c.name;
    PathPieceIn(c, expires, ok, ss);
    DomainPieceIn(c, expires, ok, ss);
    ExpiresPieceIn(c, expires, ok, ss);
  }

  /** The intended text, split at ';', holds a Max-Age body exactly when
      Max-Age is not 0 (0 for a negative one), the HttpOnly and Secure flags
      exactly when they are set, and the SameSite body exactly when the mode
      is Lax, Strict or None. */
  lemma IntendedFlagsWritten(c: Cookie, expires: Option<string>)
    requires IsCookieNameValid(c.name) && IsAscii(c.value)
    requires expires.Some? ==> ';' !in expires.value
    ensures var ps := CookieDomain.SplitOn(CookieTextIntended(c, expires), ';');
            && (c.maxAge > 0 ==> " Max-Age=" + NatToDecimal(c.maxAge) in ps)
            && (c.maxAge < 0 ==> " Max-Age=0" in ps)
            && (c.maxAge == 0 ==> forall x :: x in ps ==> Tag(x) != "Ma")
            && (" HttpOnly" in ps <==> c.httpOnly)
            && (" Secure" in ps <==> c.secure)
            && (" SameSite=" + OptionText(SameSiteNameIntended(c.sameSite)) in ps <==> 2 <= c.sameSite <= 4)
  {
    var ok := CookieDomain.ValidCookieDomainIntended(c.domain);
    var ss := SameSiteNameIntended(c.sameSite);
    IntendedPieces(c, expires);
    CookieNameHasNoDelimiters(c.name);
    assert c.name[0] in c.name;
    MaxAgePieceIn(c, expires, ok, ss);
    HttpOnlyPieceIn(c, expires, ok, ss);
    SecurePieceIn(c, expires, ok, ss);
    SameSitePieceIn(c, expires, ok, ss);
    SameSiteIntendedModes(c.sameSite);
  }

  /** With no ';' inside a piece, the intended text splits into its pieces. */
  lemma IntendedPieces(c: Cookie, expires: Option<string>)
    requires IsCookieNameValid(c.name) && IsAscii(c.value)
    requires expires.Some? ==> ';' !in expires.value
    ensures CookieDomain.SplitOn(CookieTextIntended(c, expires), ';')
            == TextPieces(c, expires, CookieDomain.ValidCookieDomainIntended(c.domain), SameSiteNameIntended(c.sameSite))
  {
    var ok := CookieDomain.ValidCookieDomainIntended(c.domain);
    var ss := SameSiteNameIntended(c.sameSite);
    CookieNameHasNoDelimiters(c.name);
    ValueTextShape(c.value);
    assert ';' !in NameValueText(c);
    assert ok ==> ';' !in c.domain;
    SameSiteHeader(c.sameSite);
    SerializedPieces(c, expires, ok, ss);
  }

  // ---------------------------------------------------------------------------
  // The text as written

  /** As written, no cookie survives a round trip: a valid name gives the
      empty text, and an invalid name is never what the parser reads. */
  lemma AsWrittenNeverReadsBack(c: Cookie, expires: Option<string>, filter: string)
    ensures var r := LineCookie(CookieTextAsWritten(c, expires), filter);
            r.None? || r.value.name != c.name
  {
    if !IsCookieNameValid(c.name) {
      var line := Trimmed(HeaderText(CookieTextAsWritten(c, expires)));
      if line != [] {
        PairCookieSound(FirstPart(line), filter);
      }
    }
  }

  /** The cookie of the source's own example, named "Cookie-1", comes out as
      the empty text. */
  lemma AsWrittenDropsValidName(c: Cookie, expires: Option<string>)
    requires c.name == "Cookie-1"
    ensures CookieTextAsWritten(c, expires) == []
    ensures CookieTextIntended(c, expires) != []
  {
    CookieNameExamples();
    assert NameValueText(c)[0] == 'C';
  }
}
