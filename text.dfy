/**
 * The two string operations the matcher applies to raw text: Python's `str.lower()`
 * (modelled on ASCII letters) when headers are compared, and `str.strip()` (with
 * Python's set of whitespace code points) when cell values are compared.
 */
module Text {

  /** The code points Python's `str.isspace()` accepts, which `str.strip()` removes. */
  predicate IsSpace(c: char) {
    var n := c as int;
    || 0x09 <= n <= 0x0D
    || 0x1C <= n <= 0x20
    || n == 0x85 || n == 0xA0 || n == 0x1680
    || 0x2000 <= n <= 0x200A
    || n == 0x2028 || n == 0x2029 || n == 0x202F || n == 0x205F || n == 0x3000
  }

  function LowerChar(c: char): char {
    if 'A' <= c <= 'Z' then (c as int + 32) as char else c
  }

  /** `s.lower()` for ASCII letters; every other character is kept. */
  function Lower(s: string): (r: string)
    ensures |r| == |s|
  {
    seq(|s|, k requires 0 <= k < |s| => LowerChar(s[k]))
  }

  /**
   * `s.strip()`: drops whitespace from the front while it starts with whitespace, then
   * from the back while it ends with whitespace.
   */
  function Strip(s: string): (r: string)
    ensures |r| <= |s|
    decreases |s|
  {
    if s != [] && IsSpace(s[0]) then Strip(s[1..])
    else if s != [] && IsSpace(s[|s| - 1]) then Strip(s[..|s| - 1])
    else s
  }

  /** `r` is the slice of `s` starting at `lead` with only whitespace before and after it. */
  ghost predicate InnerSlice(s: string, r: string, lead: nat) {
    && lead + |r| <= |s| && r == s[lead..lead + |r|]
    && (forall k :: 0 <= k < lead ==> IsSpace(s[k]))
    && (forall k :: lead + |r| <= k < |s| ==> IsSpace(s[k]))
  }

  lemma InnerSliceAfterSpace(s: string, r: string, lead: nat)
    requires s != [] && IsSpace(s[0]) && InnerSlice(s[1..], r, lead)
    ensures InnerSlice(s, r, lead + 1)
  {
    assert s[lead + 1..lead + 1 + |r|] == s[1..][lead..lead + |r|];
  }

  lemma InnerSliceBeforeSpace(s: string, r: string, lead: nat)
    requires s != [] && IsSpace(s[|s| - 1]) && InnerSlice(s[..|s| - 1], r, lead)
    ensures InnerSlice(s, r, lead)
  {
    assert s[lead..lead + |r|] == s[..|s| - 1][lead..lead + |r|];
  }

  /** The stripped value is the slice of `s` between a whitespace prefix and a whitespace suffix, with no whitespace at either end. */
  lemma {:induction false} StripIsInnerSlice(s: string)
    ensures Strip(s) == [] || (!IsSpace(Strip(s)[0]) && !IsSpace(Strip(s)[|Strip(s)| - 1]))
    ensures exists lead: nat :: InnerSlice(s, Strip(s), lead)
    decreases |s|
  {
    if s != [] && IsSpace(s[0]) {
      StripIsInnerSlice(s[1..]);
      var lead: nat :| InnerSlice(s[1..], Strip(s[1..]), lead);
      InnerSliceAfterSpace(s, Strip(s), lead);
    } else if s != [] && IsSpace(s[|s| - 1]) {
      StripIsInnerSlice(s[..|s| - 1]);
      var lead: nat :| InnerSlice(s[..|s| - 1], Strip(s[..|s| - 1]), lead);
      InnerSliceBeforeSpace(s, Strip(s), lead);
    } else {
      assert InnerSlice(s, s, 0);
    }
  }

  /** A value that neither starts nor ends with whitespace is left as it is. */
  lemma StripUnpadded(s: string)
    requires s == [] || (!IsSpace(s[0]) && !IsSpace(s[|s| - 1]))
    ensures Strip(s) == s
  {
  }

  lemma StripIdempotent(s: string)
    ensures Strip(Strip(s)) == Strip(s)
  {
    StripIsInnerSlice(s);
    StripUnpadded(Strip(s));
  }

  /** Whitespace around a value never changes what it strips to. */
  lemma {:induction false} StripIgnoresPadding(p: string, s: string, q: string)
    requires forall k :: 0 <= k < |p| ==> IsSpace(p[k])
    requires forall k :: 0 <= k < |q| ==> IsSpace(q[k])
    ensures Strip(p + s + q) == Strip(s)
    decreases |p| + |s| + |q|
  {
    var t := p + s + q;
    if p != [] {
      assert t[0] == p[0] && t[1..] == p[1..] + s + q;
      StripIgnoresPadding(p[1..], s, q);
    } else if s != [] && IsSpace(s[0]) {
      assert t == s + q && t[0] == s[0] && t[1..] == [] + s[1..] + q;
      StripIgnoresPadding([], s[1..], q);
    } else if q != [] {
      if s == [] {
        assert t == q && t[1..] == [] + [] + q[1..];
        StripIgnoresPadding([], [], q[1..]);
      } else {
        assert t[0] == s[0] && t[|t| - 1] == q[|q| - 1] && t[..|t| - 1] == [] + s + q[..|q| - 1];
        StripIgnoresPadding([], s, q[..|q| - 1]);
      }
    } else {
      assert t == s;
    }
  }
}
