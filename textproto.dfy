/** ASCII whitespace trimming, as used by the cookie parser (src/std/net/textproto.rs). */
module TextProto {

  /** The four bytes the source calls ASCII space: space, tab, newline, carriage return. */
  predicate IsAsciiSpace(b: char): (r: bool)
    ensures r ==> b as int <= 0x20
    ensures b == '\U{0B}' || b == '\U{0C}' ==> !r
  {
    b == ' ' || b == '\t' || b == '\n' || b == '\r'
  }

  /** Reference definition: drop ASCII spaces from the front, one at a time. */
  function TrimLeft(s: string): string
  {
    if |s| > 0 && IsAsciiSpace(s[0]) then TrimLeft(s[1..]) else s
  }

  /** Reference definition: drop ASCII spaces from the back, one at a time. */
  function TrimRight(s: string): string
  {
    if |s| > 0 && IsAsciiSpace(s[|s| - 1]) then TrimRight(s[..|s| - 1]) else s
  }

  /** What trim_string computes: leading, then trailing ASCII space removed. */
  function Trimmed(s: string): string
  {
    TrimRight(TrimLeft(s))
  }

  /** trim_string: two loops that delete the first byte while it is a space,
      then the last byte while it is a space. */
  method TrimString(s: string) returns (r: string)
    ensures r == Trimmed(s)
  {
    var b := s;
    while |b| > 0 && IsAsciiSpace(b[0])
      invariant TrimLeft(b) == TrimLeft(s)
    {
      b := b[1..];
    }
    while |b| > 0 && IsAsciiSpace(b[|b| - 1])
      invariant TrimRight(b) == TrimRight(TrimLeft(s))
    {
      b := b[..|b| - 1];
    }
    r := b;
  }

  lemma {:induction false} TrimLeftIsSuffix(s: string)
    ensures |TrimLeft(s)| <= |s|
    ensures TrimLeft(s) == s[|s| - |TrimLeft(s)|..]
    ensures forall k :: 0 <= k < |s| - |TrimLeft(s)| ==> IsAsciiSpace(s[k])
    ensures TrimLeft(s) == [] || !IsAsciiSpace(TrimLeft(s)[0])
  {
    if |s| > 0 && IsAsciiSpace(s[0]) {
      TrimLeftIsSuffix(s[1..]);
    }
  }

  lemma {:induction false} TrimRightIsPrefix(s: string)
    ensures |TrimRight(s)| <= |s|
    ensures TrimRight(s) == s[..|TrimRight(s)|]
    ensures forall k :: |TrimRight(s)| <= k < |s| ==> IsAsciiSpace(s[k])
    ensures TrimRight(s) == [] || !IsAsciiSpace(TrimRight(s)[|TrimRight(s)| - 1])
  {
    if |s| > 0 && IsAsciiSpace(s[|s| - 1]) {
      TrimRightIsPrefix(s[..|s| - 1]);
    }
  }

  /** TrimRight keeps a non-space first byte in place. */
  lemma {:induction false} TrimRightKeepsFront(s: string)
    requires s != [] && !IsAsciiSpace(s[0])
    ensures TrimRight(s) != [] && TrimRight(s)[0] == s[0]
  {
    if |s| > 0 && IsAsciiSpace(s[|s| - 1]) {
      TrimRightKeepsFront(s[..|s| - 1]);
    }
  }

  /** The result is a contiguous slice of the input; only ASCII space was cut on either side. */
  lemma TrimmedIsSlice(s: string)
    ensures exists i, j :: 0 <= i <= j <= |s| && Trimmed(s) == s[i..j]
                         && (forall k :: 0 <= k < i ==> IsAsciiSpace(s[k]))
                         && (forall k :: j <= k < |s| ==> IsAsciiSpace(s[k]))
  {
    var l := TrimLeft(s);
    TrimLeftIsSuffix(s);
    TrimRightIsPrefix(l);
    var i := |s| - |l|;
    var j := i + |TrimRight(l)|;
    assert Trimmed(s) == s[i..j] by {
      calc {
        Trimmed(s);
        TrimRight(l);
        l[..|TrimRight(l)|];
        s[i..][..j - i];
        s[i..j];
      }
    }
    assert forall k :: j <= k < |s| ==> IsAsciiSpace(s[k]) by {
      forall k | j <= k < |s| ensures IsAsciiSpace(s[k]) {
        assert s[k] == l[k - i];
      }
    }
    assert 0 <= i <= j <= |s| && Trimmed(s) == s[i..j]
      && (forall k :: 0 <= k < i ==> IsAsciiSpace(s[k]))
      && (forall k :: j <= k < |s| ==> IsAsciiSpace(s[k]));
  }

  /** The result neither begins nor ends with ASCII space. */
  lemma TrimmedHasNoEdgeSpace(s: string)
    ensures Trimmed(s) == [] || (!IsAsciiSpace(Trimmed(s)[0]) && !IsAsciiSpace(Trimmed(s)[|Trimmed(s)| - 1]))
  {
    var l := TrimLeft(s);
    TrimLeftIsSuffix(s);
    TrimRightIsPrefix(l);
    if Trimmed(s) != [] {
      TrimRightKeepsFront(l);
    }
  }

  /** Input made only of ASCII space (including the empty input) trims to "", and only such input does. */
  lemma TrimmedEmptyIff(s: string)
    ensures Trimmed(s) == [] <==> forall k :: 0 <= k < |s| ==> IsAsciiSpace(s[k])
  {
    TrimmedIsSlice(s);
    var l := TrimLeft(s);
    TrimLeftIsSuffix(s);
    TrimRightIsPrefix(l);
    if Trimmed(s) != [] {
      TrimRightKeepsFront(l);
      assert !IsAsciiSpace(s[|s| - |l|]);
    } else if l != [] {
      assert !IsAsciiSpace(l[0]);
      TrimRightKeepsFront(l);
    }
  }

  /** Input without leading or trailing ASCII space is returned unchanged. */
  lemma TrimmedIdentity(s: string)
    requires s == [] || (!IsAsciiSpace(s[0]) && !IsAsciiSpace(s[|s| - 1]))
    ensures Trimmed(s) == s
  {
  }

  /** Trimming twice is trimming once. */
  lemma TrimmedIdempotent(s: string)
    ensures Trimmed(Trimmed(s)) == Trimmed(s)
  {
    TrimmedHasNoEdgeSpace(s);
    TrimmedIdentity(Trimmed(s));
  }

  /** Vertical tab and form feed are not ASCII space here, so they survive trimming. */
  lemma OtherWhitespaceKept()
    ensures Trimmed([' ', '\U{0B}', '\t']) == ['\U{0B}']
    ensures Trimmed(['\U{0C}']) == ['\U{0C}']
  {
  }
}
