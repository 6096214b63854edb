/** The two string operations the request handlers apply to form input:
    Python's `str.strip()` (no argument) and `str.lower()`. */
module Text {

  /** Python's `str.isspace` for one character: the characters that
      `str.strip()` removes when called without an argument. */
  predicate IsSpace(c: char) {
    || c == ' '
    || ('\t' <= c <= '\r')
    || ('\U{1C}' <= c <= '\U{1F}')
    || c == '\U{85}' || c == '\U{A0}' || c == '\U{1680}'
    || ('\U{2000}' <= c <= '\U{200A}')
    || c == '\U{2028}' || c == '\U{2029}' || c == '\U{202F}'
    || c == '\U{205F}' || c == '\U{3000}'
  }

  /** Every character of `s` is whitespace (true of the empty string). */
  predicate AllSpace(s: string) {
    forall k :: 0 <= k < |s| ==> IsSpace(s[k])
  }

  /** Two runs of whitespace make one. */
  lemma AllSpaceJoin(a: string, b: string)
    requires AllSpace(a) && AllSpace(b)
    ensures AllSpace(a + b)
  {
    forall k | 0 <= k < |a + b|
      ensures IsSpace((a + b)[k])
    {
      if k < |a| {
        assert (a + b)[k] == a[k];
      } else {
        assert (a + b)[k] == b[k - |a|];
      }
    }
  }

  /** Neither end of `s` is whitespace: what `strip()` leaves behind. */
  predicate Trimmed(s: string) {
    s == [] || (!IsSpace(s[0]) && !IsSpace(s[|s| - 1]))
  }

  /** `str.lstrip()`: drops the leading whitespace, and only that. */
  function StripLeft(s: string): (r: string)
    ensures |r| <= |s| && r == s[|s| - |r|..]
    ensures AllSpace(s[..|s| - |r|])
    ensures r == [] || !IsSpace(r[0])
  {
    if |s| > 0 && IsSpace(s[0]) then
      var r := StripLeft(s[1..]);
      assert s[..|s| - |r|] == [s[0]] + s[1..][..|s| - 1 - |r|];
      AllSpaceJoin([s[0]], s[1..][..|s| - 1 - |r|]);
      r
    else
      s
  }

  /** `str.rstrip()`: drops the trailing whitespace, and only that. */
  function StripRight(s: string): (r: string)
    ensures |r| <= |s| && r == s[..|r|]
    ensures AllSpace(s[|r|..])
    ensures r == [] || !IsSpace(r[|r| - 1])
  {
    if |s| > 0 && IsSpace(s[|s| - 1]) then
      var r := StripRight(s[..|s| - 1]);
      assert s[|r|..] == s[..|s| - 1][|r|..] + [s[|s| - 1]];
      AllSpaceJoin(s[..|s| - 1][|r|..], [s[|s| - 1]]);
      r
    else
      s
  }

  /** `str.strip()`: a slice of `s` with no whitespace at either end; it is
      empty exactly when `s` is all whitespace. */
  function Strip(s: string): (r: string)
    ensures Trimmed(r)
    ensures |r| <= |s|
    ensures r == [] <==> AllSpace(s)
  {
    var l := StripLeft(s);
    if l == [] then
      assert s[..|s|] == s;
      StripRight(l)
    else
      assert l[0] == s[|s| - |l|] && !IsSpace(l[0]);
      assert l[0..] == l;
      StripRight(l)
  }

  /** The ASCII part of `str.lower()` on one character. */
  function LowerChar(c: char): char {
    if 'A' <= c <= 'Z' then (c as int + 32) as char else c
  }

  /** `str.lower()`, character by character. */
  function Lower(s: string): (r: string)
    ensures |r| == |s|
    ensures forall k :: 0 <= k < |s| ==> r[k] == LowerChar(s[k])
  {
    if s == [] then [] else [LowerChar(s[0])] + Lower(s[1..])
  }

  /** Leading whitespace does not change what `lstrip()` returns. */
  lemma {:induction false} StripLeftSkipsSpace(pad: string, s: string)
    requires AllSpace(pad)
    ensures StripLeft(pad + s) == StripLeft(s)
  {
    if pad != [] {
      assert (pad + s)[1..] == pad[1..] + s;
      StripLeftSkipsSpace(pad[1..], s);
    } else {
      assert pad + s == s;
    }
  }

  /** Trailing whitespace does not change what `rstrip()` returns. */
  lemma {:induction false} StripRightSkipsSpace(s: string, pad: string)
    requires AllSpace(pad)
    ensures StripRight(s + pad) == StripRight(s)
  {
    if pad != [] {
      var n := |s + pad|;
      assert (s + pad)[..n - 1] == s + pad[..|pad| - 1];
      assert IsSpace(pad[|pad| - 1]);
      StripRightSkipsSpace(s, pad[..|pad| - 1]);
    } else {
      assert s + pad == s;
    }
  }

  /** `lstrip()` of a string followed by whitespace: the whitespace stays
      behind the stripped text, or everything goes when the text is blank. */
  lemma {:induction false} StripLeftBeforeSpace(s: string, pad: string)
    requires AllSpace(pad)
    ensures StripLeft(s + pad) == if StripLeft(s) == [] then [] else StripLeft(s) + pad
  {
    if s == [] {
      assert s + pad == pad;
      StripLeftSkipsSpace(pad, []);
      assert pad + [] == pad;
    } else if IsSpace(s[0]) {
      assert (s + pad)[1..] == s[1..] + pad;
      StripLeftBeforeSpace(s[1..], pad);
    }
  }

  /** `strip()` ignores whitespace around its argument: together with
      StripKeepsTrimmed this pins down `strip()` completely, since every
      string is whitespace, then a trimmed core, then whitespace. */
  lemma StripIgnoresPadding(pre: string, s: string, post: string)
    requires AllSpace(pre) && AllSpace(post)
    ensures Strip(pre + s + post) == Strip(s)
  {
    var l := StripLeft(s);
    assert StripLeft(pre + s + post) == if l == [] then [] else l + post by {
      assert pre + s + post == pre + (s + post);
      StripLeftSkipsSpace(pre, s + post);
      StripLeftBeforeSpace(s, post);
    }
    assert StripRight(if l == [] then [] else l + post) == StripRight(l) by {
      if l != [] {
        StripRightSkipsSpace(l, post);
      }
    }
  }

  /** A string with no whitespace at either end is left as it is. */
  lemma StripKeepsTrimmed(s: string)
    requires Trimmed(s)
    ensures Strip(s) == s
  {
    assert StripLeft(s) == s;
    assert StripRight(s) == s;
  }

  /** Stripping twice is stripping once. */
  lemma StripIdempotent(s: string)
    ensures Strip(Strip(s)) == Strip(s)
  {
    StripKeepsTrimmed(Strip(s));
  }

  /** On one character, lower-casing keeps whitespace whitespace and
      everything else not, and a second application changes nothing. */
  lemma LowerCharFacts(c: char)
    ensures IsSpace(LowerChar(c)) == IsSpace(c)
    ensures LowerChar(LowerChar(c)) == LowerChar(c)
  {
  }

  /** Lower-casing maps whitespace to whitespace and nothing else to it, so
      it keeps a stripped string stripped; and lower-casing twice is
      lower-casing once. */
  lemma {:induction false} LowerKeepsTrimmed(s: string)
    requires Trimmed(s)
    ensures Trimmed(Lower(s))
    ensures Lower(Lower(s)) == Lower(s)
  {
    var l := Lower(s);
    if s != [] {
      LowerCharFacts(s[0]);
      LowerCharFacts(s[|s| - 1]);
    }
    forall k | 0 <= k < |l|
      ensures Lower(l)[k] == l[k]
    {
      LowerCharFacts(s[k]);
    }
  }

  /** A string without upper-case ASCII letters is its own lower case. */
  lemma LowerOfLowerCase(s: string)
    requires forall k :: 0 <= k < |s| ==> !('A' <= s[k] <= 'Z')
    ensures Lower(s) == s
  {
  }
}
