/** The Domain attribute checks of src/std/http/cookie.rs: is_cookie_domain_name
    and valid_cookie_domain.

    The source walks the UTF-8 bytes of the text; the model walks its chars.
    The two agree on every input: an ASCII text has as many bytes as chars, and
    a text holding any non-ASCII char is rejected either way, because every byte
    of a multi-byte char is outside the accepted classes. */
module CookieDomain {

  /** The longest text accepted, counted before the leading dot is dropped. */
  const MaxDomainLength := 255
  /** The longest label between two dots. */
  const MaxLabelLength := 63

  predicate IsLetter(c: char)
  {
    'a' <= c <= 'z' || 'A' <= c <= 'Z'
  }

  predicate IsDigit(c: char)
  {
    '0' <= c <= '9'
  }

  /** The chars a domain name is made of (no underscore, unlike host names in general). */
  predicate IsDomainChar(c: char)
  {
    IsLetter(c) || IsDigit(c) || c == '-' || c == '.'
  }

  /** One leading dot is allowed and ignored. */
  function DropLeadingDot(s: string): (t: string)
    ensures |s| > 0 && s[0] == '.' ==> t == s[1..]
    ensures !(|s| > 0 && s[0] == '.') ==> t == s
  {
    if |s| > 0 && s[0] == '.' then s[1..] else s
  }

  /** The number of chars in a window that must hold a dot: one more than a label may have. */
  const Window := MaxLabelLength + 1

  /** The window of Window chars starting at a holds a dot. */
  predicate DotInWindow(t: string, a: int)
  {
    exists k :: a <= k < a + Window && 0 <= k < |t| && t[k] == '.'
  }

  /** No label is longer than MaxLabelLength: every window of MaxLabelLength + 1
      consecutive chars holds a dot. */
  predicate ShortLabels(t: string)
  {
    forall a :: 0 <= a && a + Window <= |t| ==> DotInWindow(t, a)
  }

  /** A dot-separated sequence of labels over letters, digits and hyphens: no
      label is empty (except after a trailing dot), none begins or ends with a
      hyphen, none is longer than 63 chars, and some letter occurs. */
  predicate IsDomainText(t: string)
  {
    && (forall k :: 0 <= k < |t| ==> IsDomainChar(t[k]))
    && SeenLetter(t, |t|)
    && (forall k :: 0 <= k < |t| && t[k] == '-' ==> 0 < k && t[k - 1] != '.')
    && (forall k :: 0 <= k < |t| && t[k] == '-' ==> k + 1 < |t| && t[k + 1] != '.')
    && (forall k :: 0 <= k < |t| && t[k] == '.' ==> 0 < k && t[k - 1] != '.')
    && ShortLabels(t)
  }

  /** What is_cookie_domain_name accepts: 1 to 255 chars, then, after one leading
      dot is dropped, a domain text. */
  predicate IsDomainName(s: string)
  {
    0 < |s| <= MaxDomainLength && IsDomainText(DropLeadingDot(s))
  }

  /** Some letter occurs among the first n chars. */
  predicate SeenLetter(t: string, n: int)
  {
    exists k :: 0 <= k < n && 0 <= k < |t| && IsLetter(t[k])
  }

  lemma SeenLetterStep(t: string, i: int)
    requires 0 <= i < |t|
    ensures SeenLetter(t, i + 1) <==> SeenLetter(t, i) || IsLetter(t[i])
  {
    if SeenLetter(t, i + 1) && !IsLetter(t[i]) {
      var k :| 0 <= k < i + 1 && 0 <= k < |t| && IsLetter(t[k]);
      assert k < i;
    }
  }

  /** The local rules of a domain text, checked on its first n chars: only
      domain chars; a hyphen neither first nor after a dot; no hyphen right
      before a dot; a dot neither first nor after a dot. */
  predicate LocalRules(t: string, n: int)
    requires 0 <= n <= |t|
  {
    && (forall k :: 0 <= k < n ==> IsDomainChar(t[k]))
    && (forall k :: 0 <= k < n && t[k] == '-' ==> 0 < k && t[k - 1] != '.')
    && (forall k :: 0 <= k < n - 1 && t[k] == '-' ==> t[k + 1] != '.')
    && (forall k :: 0 <= k < n && t[k] == '.' ==> 0 < k && t[k - 1] != '.')
  }

  /** The current label of t[..i] is the last partlen chars. */
  predicate CurrentLabel(t: string, i: int, partlen: int)
    requires 0 <= i <= |t|
  {
    && 0 <= partlen <= i
    && (forall k :: i - partlen <= k < i ==> t[k] != '.')
    && (partlen < i ==> t[i - partlen - 1] == '.')
  }

  /** Every window that starts before the current label holds a dot. */
  predicate EarlierWindows(t: string, i: int, partlen: int)
  {
    forall a :: 0 <= a < i - partlen && a + Window <= i ==> DotInWindow(t, a)
  }

  /** The domain text is its local rules on the whole text, plus no final
      hyphen, a letter and short labels. */
  lemma DomainTextByRules(t: string)
    ensures IsDomainText(t) <==>
      && LocalRules(t, |t|)
      && (|t| > 0 ==> t[|t| - 1] != '-')
      && SeenLetter(t, |t|)
      && ShortLabels(t)
  {
  }

  /** Reading one more char that obeys the local rules keeps them. */
  lemma LocalRulesStep(t: string, i: int)
    requires 0 <= i < |t| && LocalRules(t, i)
    requires IsDomainChar(t[i])
    requires t[i] == '-' ==> 0 < i && t[i - 1] != '.'
    requires t[i] == '.' ==> 0 < i && t[i - 1] != '.' && t[i - 1] != '-'
    ensures LocalRules(t, i + 1)
  {
  }

  /** One accepted char: the local rules, the current label and the windows
      before it all carry over to t[..i + 1]. */
  lemma Advance(t: string, i: int, partlen: int, newlen: int)
    requires 0 <= i < |t| && LocalRules(t, i)
    requires CurrentLabel(t, i, partlen) && EarlierWindows(t, i, partlen)
    requires IsDomainChar(t[i])
    requires t[i] == '-' ==> 0 < i && t[i - 1] != '.'
    requires t[i] == '.' ==> 0 < i && t[i - 1] != '.' && t[i - 1] != '-'
    requires (t[i] != '.' && newlen == partlen + 1) || (t[i] == '.' && partlen <= MaxLabelLength && newlen == 0)
    ensures LocalRules(t, i + 1) && CurrentLabel(t, i + 1, newlen) && EarlierWindows(t, i + 1, newlen)
  {
    LocalRulesStep(t, i);
    WindowsStep(t, i, partlen, newlen);
  }

  /** A char that breaks the local rules rejects the whole text. */
  lemma LocalRulesBroken(t: string, i: int)
    requires 0 <= i < |t|
    requires || !IsDomainChar(t[i])
             || (t[i] == '-' && (i == 0 || t[i - 1] == '.'))
             || (t[i] == '.' && (i == 0 || t[i - 1] == '.' || t[i - 1] == '-'))
    ensures !IsDomainText(t)
  {
    if t[i] == '.' && 0 < i && t[i - 1] == '-' {
      assert t[i - 1] == '-' && t[(i - 1) + 1] == '.';
    }
  }

  /** is_cookie_domain_name: a single pass keeping the previous char, the length
      of the current label and whether a letter has been seen. */
  method IsCookieDomainName(s: string) returns (r: bool)
    ensures r == IsDomainName(s)
  {
    if |s| == 0 {
      return false;
    }
    if |s| > MaxDomainLength {
      return false;
    }
    var t := DropLeadingDot(s);
    var last := '.';
    var ok := false;
    var partlen := 0;
    for i := 0 to |t|
      invariant last == if i == 0 then '.' else t[i - 1]
      invariant CurrentLabel(t, i, partlen)
      invariant LocalRules(t, i)
      invariant ok <==> SeenLetter(t, i)
      invariant EarlierWindows(t, i, partlen)
    {
      var c := t[i];
      SeenLetterStep(t, i);
      if IsLetter(c) {
        Advance(t, i, partlen, partlen + 1);
        ok := true;
        partlen := partlen + 1;
      } else if IsDigit(c) {
        Advance(t, i, partlen, partlen + 1);
        partlen := partlen + 1;
      } else if c == '-' {
        if last == '.' {
          LocalRulesBroken(t, i);
          return false;
        }
        Advance(t, i, partlen, partlen + 1);
        partlen := partlen + 1;
      } else if c == '.' {
        if last == '.' || last == '-' {
          LocalRulesBroken(t, i);
          return false;
        }
        if partlen > MaxLabelLength || partlen == 0 {
          if partlen > MaxLabelLength {
            LongLabelRejected(t, i - partlen);
          } else {
            LocalRulesBroken(t, i);
          }
          return false;
        }
        Advance(t, i, partlen, 0);
        partlen := 0;
      } else {
        LocalRulesBroken(t, i);
        return false;
      }
      last := c;
    }
    DomainTextByRules(t);
    if last == '-' || partlen > MaxLabelLength {
      if partlen > MaxLabelLength {
        LongLabelRejected(t, |t| - partlen);
      }
      return false;
    }
    WindowsCovered(t, partlen);
    return ok;
  }

  /** A run of more than MaxLabelLength non-dot chars breaks ShortLabels. */
  lemma LongLabelRejected(t: string, a: int)
    requires 0 <= a && a + Window <= |t|
    requires forall k :: a <= k < a + Window ==> t[k] != '.'
    ensures !ShortLabels(t)
  {
    assert !DotInWindow(t, a);
  }

  /** One step of the pass keeps every window that ends before the current
      label holding a dot. */
  lemma WindowsStep(t: string, i: int, partlen: int, newlen: int)
    requires 0 <= i < |t| && CurrentLabel(t, i, partlen) && EarlierWindows(t, i, partlen)
    requires (t[i] != '.' && newlen == partlen + 1) || (t[i] == '.' && partlen <= MaxLabelLength && newlen == 0)
    ensures CurrentLabel(t, i + 1, newlen) && EarlierWindows(t, i + 1, newlen)
  {
    forall a | 0 <= a < i + 1 - newlen && a + Window <= i + 1
      ensures DotInWindow(t, a)
    {
      if a + Window == i + 1 {
        if t[i] == '.' {
          assert a <= i < a + Window;
        } else {
          assert a <= i - partlen - 1 < a + Window;
        }
      }
    }
  }

  /** At the end of the pass, windows inside a final label of at most
      MaxLabelLength chars cannot exist, so the ones checked cover them all. */
  lemma WindowsCovered(t: string, partlen: int)
    requires 0 <= partlen <= MaxLabelLength && partlen <= |t|
    requires EarlierWindows(t, |t|, partlen)
    ensures ShortLabels(t)
  {
  }

  /** A host name with a leading dot is accepted; a label starting with a
      hyphen, an empty label, a final hyphen and an all-digit name are not. */
  lemma DomainNameExamples(good: string, dash: string, dots: string, tail: string, digits: string)
    requires good == ".go.dev" && dash == "-go.dev" && dots == "go..dev" && tail == "go.dev-" && digits == "10.0.0.1"
    ensures IsDomainName(good)
    ensures !IsDomainName(dash) && !IsDomainName(dots) && !IsDomainName(tail) && !IsDomainName(digits)
  {
    LeadingDotAccepted(good);
    LocalRulesBroken(dash, 0);
    LocalRulesBroken(dots, 3);
    FinalHyphenRejected(tail);
    AllDigitsRejected(digits);
  }

  lemma LeadingDotAccepted(good: string)
    requires good == ".go.dev"
    ensures IsDomainName(good)
  {
    assert DropLeadingDot(good) == "go.dev";
    assert IsLetter(DropLeadingDot(good)[0]);
  }

  lemma FinalHyphenRejected(tail: string)
    requires tail == "go.dev-"
    ensures !IsDomainName(tail)
  {
    assert tail[6] == '-';
  }

  lemma AllDigitsRejected(digits: string)
    requires digits == "10.0.0.1"
    ensures !IsDomainName(digits)
  {
    assert forall k :: 0 <= k < |digits| ==> !IsLetter(digits[k]);
    assert !SeenLetter(digits, |digits|);
  }

  /** A domain name is non-empty and free of colons (and of every other
      char outside letters, digits, '-' and '.'). */
  lemma DomainNameChars(s: string)
    requires IsDomainName(s)
    ensures s != [] && ':' !in s && ';' !in s && ' ' !in s
    ensures forall k :: 0 <= k < |s| ==> IsDomainChar(s[k])
  {
    var t := DropLeadingDot(s);
    forall k | 0 <= k < |s|
      ensures IsDomainChar(s[k])
    {
      if s[0] == '.' && k > 0 {
        assert s[k] == t[k - 1];
      } else if s[0] != '.' {
        assert s[k] == t[k];
      }
    }
  }

  /** valid_cookie_domain as written: a domain name, or else any non-empty text
      without a colon (the IP-address test of the original Go code is missing). */
  function ValidCookieDomain(v: string): (r: bool)
    ensures r <==> v != [] && ':' !in v
  {
    if IsDomainName(v) then
      DomainNameChars(v);
      true
    else
      v != [] && ':' !in v
  }

  /** The gap: an attribute smuggled into the domain passes the check. */
  lemma ValidCookieDomainAdmitsSemicolon(v: string)
    requires v == "example.com; Secure"
    ensures ValidCookieDomain(v) && ';' in v && !IsDomainName(v)
  {
    assert v[11] == ';';
    if IsDomainName(v) {
      DomainNameChars(v);
    }
  }

  // ---------------------------------------------------------------------------
  // The intended check: a domain name, or an IPv4 address in dotted-quad form
  // (the IPv6 forms contain ':' and are refused by the source in any case).

  /** The pieces of s between the separator sep, in order. */
  function SplitOn(s: string, sep: char): (parts: seq<string>)
    ensures |parts| >= 1
    ensures |parts| == 1 <==> sep !in s
    ensures sep !in s ==> parts == [s]
    decreases |s|
  {
    if s == [] then [[]]
    else
      var ps := SplitOn(s[..|s| - 1], sep);
      var c := s[|s| - 1];
      assert s == s[..|s| - 1] + [c];
      if c == sep then ps + [[]] else ps[..|ps| - 1] + [ps[|ps| - 1] + [c]]
  }

  /** No piece contains the separator. */
  lemma {:induction false} SplitOnPiecesFree(s: string, sep: char)
    ensures forall j :: 0 <= j < |SplitOn(s, sep)| ==> sep !in SplitOn(s, sep)[j]
    decreases |s|
  {
    if s != [] {
      var t, c := s[..|s| - 1], s[|s| - 1];
      assert s == t + [c];
      SplitOnPiecesFree(t, sep);
      SplitOnSnoc(t, sep, c);
      var ps, r := SplitOn(t, sep), SplitOn(s, sep);
      forall j | 0 <= j < |r|
        ensures sep !in r[j]
      {
        if c == sep {
          if j < |ps| {
            assert r[j] == ps[j];
          }
        } else if j < |ps| - 1 {
          assert r[j] == ps[j];
        } else {
          assert r[j] == ps[|ps| - 1] + [c];
        }
      }
    }
  }

  /** The first piece is the text before the first separator. */
  lemma {:induction false} SplitOnFirst(s: string, sep: char, i: int)
    requires 0 <= i < |s| && s[i] == sep && sep !in s[..i]
    ensures SplitOn(s, sep)[0] == s[..i]
    decreases |s|
  {
    var t := s[..|s| - 1];
    var ps := SplitOn(t, sep);
    if i < |s| - 1 {
      assert t[i] == sep && t[..i] == s[..i];
      SplitOnFirst(t, sep, i);
      assert sep in t;
    } else {
      assert t == s[..i];
    }
  }

  /** Appending one char either opens a new piece or extends the last one. */
  lemma SplitOnSnoc(t: string, sep: char, c: char)
    ensures var ps := SplitOn(t, sep);
            SplitOn(t + [c], sep) == if c == sep then ps + [[]] else ps[..|ps| - 1] + [ps[|ps| - 1] + [c]]
  {
    assert (t + [c])[..|t + [c]| - 1] == t;
  }

  /** Splitting undoes joining with the separator. */
  lemma {:induction false} SplitOnJoin(a: string, sep: char, b: string)
    ensures SplitOn(a + [sep] + b, sep) == SplitOn(a, sep) + SplitOn(b, sep)
    decreases |b|
  {
    if b == [] {
      SplitOnSnoc(a, sep, sep);
      assert a + [sep] + b == a + [sep];
    } else {
      var b', c := b[..|b| - 1], b[|b| - 1];
      assert a + [sep] + b == (a + [sep] + b') + [c];
      assert b == b' + [c];
      SplitOnJoin(a, sep, b');
      SplitOnSnoc(a + [sep] + b', sep, c);
      SplitOnSnoc(b', sep, c);
      SnocJoined(SplitOn(a, sep), SplitOn(b', sep), sep, c);
    }
  }

  /** Opening or extending the last piece commutes with a prefix of pieces. */
  lemma SnocJoined(front: seq<string>, back: seq<string>, sep: char, c: char)
    requires |back| >= 1
    ensures var j := front + back;
            (if c == sep then j + [[]] else j[..|j| - 1] + [j[|j| - 1] + [c]])
            == front + (if c == sep then back + [[]] else back[..|back| - 1] + [back[|back| - 1] + [c]])
  {
    var j := front + back;
    if c != sep {
      assert j[..|j| - 1] == front + back[..|back| - 1];
    }
  }

  /** Every char of s is the separator or a char of some piece. */
  lemma {:induction false} SplitOnCovers(s: string, sep: char, k: int)
    requires 0 <= k < |s| && s[k] != sep
    ensures exists j :: 0 <= j < |SplitOn(s, sep)| && s[k] in SplitOn(s, sep)[j]
    decreases |s|
  {
    var ps := SplitOn(s[..|s| - 1], sep);
    var c := s[|s| - 1];
    var r := SplitOn(s, sep);
    if k == |s| - 1 {
      assert r[|r| - 1] == ps[|ps| - 1] + [c];
      assert s[k] in r[|r| - 1];
    } else {
      SplitOnCovers(s[..|s| - 1], sep, k);
      var j :| 0 <= j < |ps| && s[k] in ps[j];
      if c == sep {
        assert r[j] == ps[j];
      } else if j < |ps| - 1 {
        assert r[j] == ps[j];
      } else {
        assert r[j] == ps[j] + [c];
      }
    }
  }

  /** The decimal value of a digit string. */
  function DecimalValue(d: string): (n: nat)
    requires forall k :: 0 <= k < |d| ==> IsDigit(d[k])
    ensures n < Power10(|d|)
    decreases |d|
  {
    if d == [] then 0
    else
      assert IsDigit(d[|d| - 1]);
      var n := DecimalValue(d[..|d| - 1]);
      assert n < Power10(|d| - 1);
      assert 10 * n + 9 < 10 * Power10(|d| - 1);
      10 * n + (d[|d| - 1] as int - '0' as int)
  }

  function Power10(n: nat): (p: nat)
    ensures p >= 1
  {
    if n == 0 then 1 else 10 * Power10(n - 1)
  }

  /** One dotted-quad component: one to three digits with value at most 255. */
  predicate IsOctetText(d: string)
  {
    1 <= |d| <= 3 && (forall k :: 0 <= k < |d| ==> IsDigit(d[k])) && DecimalValue(d) <= 255
  }

  /** An IPv4 address in dotted-quad form. */
  predicate IsIPv4(v: string)
  {
    var parts := SplitOn(v, '.');
    |parts| == 4 && forall j :: 0 <= j < 4 ==> IsOctetText(parts[j])
  }

  /** An IPv4 address is made of digits and dots only. */
  lemma IPv4Chars(v: string)
    requires IsIPv4(v)
    ensures forall k :: 0 <= k < |v| ==> IsDigit(v[k]) || v[k] == '.'
  {
    forall k | 0 <= k < |v| && v[k] != '.'
      ensures IsDigit(v[k])
    {
      SplitOnCovers(v, '.', k);
      var parts := SplitOn(v, '.');
      var j :| 0 <= j < |parts| && v[k] in parts[j];
      var m :| 0 <= m < |parts[j]| && parts[j][m] == v[k];
      assert IsOctetText(parts[j]);
    }
  }

  /** valid_cookie_domain as the original Go code has it: a domain name, or an
      IP address that contains no colon. */
  function ValidCookieDomainIntended(v: string): (r: bool)
    ensures r ==> v != [] && forall k :: 0 <= k < |v| ==> IsDomainChar(v[k])
  {
    if IsDomainName(v) then
      DomainNameChars(v);
      true
    else if IsIPv4(v) then
      IPv4Chars(v);
      true
    else
      false
  }

  /** Under the intended check no attribute can be smuggled into the domain. */
  lemma IntendedDomainHasNoSeparators(v: string)
    requires ValidCookieDomainIntended(v)
    ensures ';' !in v && ' ' !in v && ':' !in v && ',' !in v
  {
  }
}
