/** Python's `str.strip()` called without an argument, over Unicode code points. */
module Whitespace {

  /** The code points Python's `str.isspace()` accepts, which are exactly the ones
      `str.strip()` removes: U+0009..U+000D, U+001C..U+0020, U+0085, U+00A0, U+1680,
      U+2000..U+200A, U+2028, U+2029, U+202F, U+205F and U+3000. */
  predicate IsWhitespace(c: char) {
    var n := c as int;
    || (0x09 <= n <= 0x0D)
    || (0x1C <= n <= 0x20)
    || n == 0x85
    || n == 0xA0
    || n == 0x1680
    || (0x2000 <= n <= 0x200A)
    || n == 0x2028
    || n == 0x2029
    || n == 0x202F
    || n == 0x205F
    || n == 0x3000
  }

  predicate AllWhitespace(s: string) {
    forall i :: 0 <= i < |s| ==> IsWhitespace(s[i])
  }

  /** True when `s` neither starts nor ends with whitespace. */
  predicate Trimmed(s: string) {
    s == [] || (!IsWhitespace(s[0]) && !IsWhitespace(s[|s| - 1]))
  }

  /** The scan from the left: the first index at or after `i` that does not
      hold whitespace (or `|s|`). */
  function SkipLeading(s: string, i: nat): (j: nat)
    requires i <= |s|
    ensures i <= j <= |s|
    ensures forall k :: i <= k < j ==> IsWhitespace(s[k])
    ensures j < |s| ==> !IsWhitespace(s[j])
    decreases |s| - i
  {
    if i < |s| && IsWhitespace(s[i]) then SkipLeading(s, i + 1) else i
  }

  /** The scan from the right, stopping at `lo`: the least index `j >= lo`
      such that `s[j..e]` is all whitespace. */
  function SkipTrailing(s: string, lo: nat, e: nat): (j: nat)
    requires lo <= e <= |s|
    ensures lo <= j <= e
    ensures forall k :: j <= k < e ==> IsWhitespace(s[k])
    ensures lo < j ==> !IsWhitespace(s[j - 1])
    decreases e
  {
    if lo < e && IsWhitespace(s[e - 1]) then SkipTrailing(s, lo, e - 1) else e
  }

  /** `r` is a slice `s[i..i + |r|]` of `s` with only whitespace before and after
      it, and `r` itself neither starts nor ends with whitespace. This is the
      meaning of `str.strip()`, independent of how it scans. */
  ghost predicate IsStrippedFrom(r: string, s: string) {
    exists i :: 0 <= i <= |s| - |r| && StrippedAt(r, s, i)
  }

  ghost predicate StrippedAt(r: string, s: string, i: int)
    requires 0 <= i <= |s| - |r|
  {
    && r == s[i..i + |r|]
    && AllWhitespace(s[..i])
    && AllWhitespace(s[i + |r|..])
    && Trimmed(r)
  }

  /** `str.strip()`: skips the leading whitespace, then, from the other end,
      the trailing whitespace, and returns what lies between. */
  function Strip(s: string): (r: string)
    ensures |r| <= |s|
    ensures Trimmed(r)
    ensures r == [] <==> AllWhitespace(s)
  {
    var i := SkipLeading(s, 0);
    var j := SkipTrailing(s, i, |s|);
    s[i..j]
  }

  /** What `Strip` returns is a stripped slice of its argument. */
  lemma StripIsStripped(s: string)
    ensures IsStrippedFrom(Strip(s), s)
  {
    var i := SkipLeading(s, 0);
    var j := SkipTrailing(s, i, |s|);
    assert Strip(s) == s[i..j];
    assert StrippedAt(s[i..j], s, i);
  }

  /** `StrippedAt` read off index by index on `s` itself, without slices. */
  lemma StrippedAtBounds(r: string, s: string, i: int)
    requires 0 <= i <= |s| - |r| && StrippedAt(r, s, i)
    ensures forall k :: 0 <= k < i ==> IsWhitespace(s[k])
    ensures forall k :: i + |r| <= k < |s| ==> IsWhitespace(s[k])
    ensures r != [] ==> !IsWhitespace(s[i]) && !IsWhitespace(s[i + |r| - 1])
  {
    forall k | 0 <= k < i ensures IsWhitespace(s[k]) {
      assert s[..i][k] == s[k];
    }
    forall k | i + |r| <= k < |s| ensures IsWhitespace(s[k]) {
      assert s[i + |r|..][k - i - |r|] == s[k];
    }
    if r != [] {
      assert s[i] == r[0] && s[i + |r| - 1] == r[|r| - 1];
    }
  }

  /** A string has one stripped slice only: both start at the first and end
      after the last non-whitespace character. */
  lemma StrippedUnique(r: string, t: string, s: string)
    requires IsStrippedFrom(r, s) && IsStrippedFrom(t, s)
    ensures r == t
  {
    var i :| 0 <= i <= |s| - |r| && StrippedAt(r, s, i);
    var j :| 0 <= j <= |s| - |t| && StrippedAt(t, s, j);
    StrippedAtBounds(r, s, i);
    StrippedAtBounds(t, s, j);
    if r == [] || t == [] {
      assert forall k :: 0 <= k < |s| ==> IsWhitespace(s[k]);
    } else {
      assert i == j && i + |r| == j + |t|;
    }
  }

  /** `Strip` is the only string that meets `IsStrippedFrom`: the scanning
      definition and the declarative one agree. */
  lemma StripUnique(r: string, s: string)
    requires IsStrippedFrom(r, s)
    ensures r == Strip(s)
  {
    StripIsStripped(s);
    StrippedUnique(r, Strip(s), s);
  }

  /** A string without surrounding whitespace is left as it is. */
  lemma StripOfTrimmed(s: string)
    requires Trimmed(s)
    ensures Strip(s) == s
  {
    assert s[0..0 + |s|] == s;
    assert StrippedAt(s, s, 0);
    StripUnique(s, s);
  }

  /** Whitespace around a trimmed core is exactly what is dropped:
      `Strip("  Buy groceries  ") == "Buy groceries"` is one instance. */
  lemma StripDropsSurrounding(before: string, core: string, after: string)
    requires AllWhitespace(before) && AllWhitespace(after) && Trimmed(core)
    ensures Strip(before + core + after) == core
  {
    var s := before + core + after;
    var i := |before|;
    assert s[i..i + |core|] == core;
    assert s[..i] == before;
    assert s[i + |core|..] == after;
    assert StrippedAt(core, s, i);
    StripUnique(core, s);
  }

  /** Stripping twice is stripping once. */
  lemma StripIdempotent(s: string)
    ensures Strip(Strip(s)) == Strip(s)
  {
    StripOfTrimmed(Strip(s));
  }
}
