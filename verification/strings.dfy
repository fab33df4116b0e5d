/** The few ECMAScript string operations the program relies on:
    `trim`, `indexOf`, `startsWith` and `endsWith`. A JavaScript string is
    modelled as a sequence of characters. */
module Strings {

  /** The characters `String.prototype.trim` removes: ECMAScript WhiteSpace
      (tab, vertical tab, form feed, space, no-break space, byte order mark
      and the Unicode space separators) and LineTerminator. */
  predicate IsWhitespace(c: char) {
    || c == '\t' || c == '\U{B}' || c == '\U{C}' || c == ' '
    || c == '\U{A0}' || c == '\U{FEFF}' || c == '\U{1680}'
    || ('\U{2000}' <= c <= '\U{200A}')
    || c == '\U{202F}' || c == '\U{205F}' || c == '\U{3000}'
    || IsLineTerminator(c)
  }

  /** ECMAScript LineTerminator: the characters a regular expression `.`
      does not match. */
  predicate IsLineTerminator(c: char) {
    c == '\n' || c == '\r' || c == '\U{2028}' || c == '\U{2029}'
  }

  predicate AllWhitespace(s: string) {
    forall k :: 0 <= k < |s| ==> IsWhitespace(s[k])
  }

  /** No whitespace at either end: what `trim` leaves behind. */
  predicate Trimmed(s: string) {
    |s| == 0 || (!IsWhitespace(s[0]) && !IsWhitespace(s[|s| - 1]))
  }

  predicate StartsWith(s: string, prefix: string) {
    |prefix| <= |s| && s[..|prefix|] == prefix
  }

  predicate EndsWith(s: string, suffix: string) {
    |suffix| <= |s| && s[|s| - |suffix|..] == suffix
  }

  /** `pat` occurs in `s` starting at index `i`. */
  predicate OccursAt(s: string, pat: string, i: int) {
    0 <= i && i + |pat| <= |s| && s[i..i + |pat|] == pat
  }

  /** Drops leading whitespace: the result is the suffix of `s` that starts
      at its first non-whitespace character. */
  function TrimStart(s: string): (r: string)
    ensures |r| <= |s| && r == s[|s| - |r|..]
    ensures AllWhitespace(s[..|s| - |r|])
    ensures |r| > 0 ==> !IsWhitespace(r[0])
    decreases |s|
  {
    if |s| > 0 && IsWhitespace(s[0]) then
      var r := TrimStart(s[1..]);
      assert s[..|s| - |r|] == [s[0]] + s[1..][..|s| - 1 - |r|];
      r
    else
      s
  }

  /** Drops trailing whitespace: the result is the prefix of `s` that ends
      at its last non-whitespace character. */
  function TrimEnd(s: string): (r: string)
    ensures |r| <= |s| && r == s[..|r|]
    ensures AllWhitespace(s[|r|..])
    ensures |r| > 0 ==> !IsWhitespace(r[|r| - 1])
    decreases |s|
  {
    if |s| > 0 && IsWhitespace(s[|s| - 1]) then
      var r := TrimEnd(s[..|s| - 1]);
      assert s[|r|..] == s[..|s| - 1][|r|..] + [s[|s| - 1]];
      r
    else
      s
  }

  /** `String.prototype.trim`: the result is the infix of `s` left after
      removing every leading and every trailing whitespace character. */
  function Trim(s: string): (r: string)
    ensures Trimmed(r)
    ensures exists i :: 0 <= i <= |s| - |r| && r == s[i..i + |r|]
                        && AllWhitespace(s[..i]) && AllWhitespace(s[i + |r|..])
  {
    var t := TrimStart(s);
    var r := TrimEnd(t);
    var i := |s| - |t|;
    SlicesOfSuffix(s, i, |r|);
    assert r == s[i..i + |r|] && AllWhitespace(s[..i]) && AllWhitespace(s[i + |r|..]);
    r
  }

  /** Slicing a suffix is slicing the whole. */
  lemma SlicesOfSuffix(s: string, i: nat, n: nat)
    requires i + n <= |s|
    ensures s[i..][..n] == s[i..i + n]
    ensures s[i..][n..] == s[i + n..]
  {
  }

  /** `s.indexOf(pat)`: the first index at which `pat` occurs, or -1. */
  function IndexOf(s: string, pat: string): (r: int)
    ensures -1 <= r <= |s|
    ensures r >= 0 ==> OccursAt(s, pat, r)
    ensures forall j :: 0 <= j && (r == -1 || j < r) ==> !OccursAt(s, pat, j)
  {
    IndexFrom(s, pat, 0)
  }

  /** The first index at or after `from` at which `pat` occurs, or -1. */
  function IndexFrom(s: string, pat: string, from: nat): (r: int)
    requires from <= |s| + 1
    ensures r == -1 || from <= r <= |s|
    ensures r >= 0 ==> OccursAt(s, pat, r)
    ensures forall j :: from <= j && (r == -1 || j < r) ==> !OccursAt(s, pat, j)
    decreases |s| + 1 - from
  {
    if from + |pat| > |s| then -1
    else if s[from..from + |pat|] == pat then from
    else IndexFrom(s, pat, from + 1)
  }

  /** Trimming is the identity on a string with no whitespace at either end. */
  lemma TrimOfTrimmed(s: string)
    requires Trimmed(s)
    ensures Trim(s) == s
  {
  }

  /** Trimming twice is trimming once. */
  lemma TrimIdempotent(s: string)
    ensures Trim(Trim(s)) == Trim(s)
  {
    TrimOfTrimmed(Trim(s));
  }

  /** Trimming text padded with whitespace on both sides gives back the
      text, when the text itself starts and ends with something else. */
  lemma TrimAround(w1: string, x: string, w2: string)
    requires AllWhitespace(w1) && AllWhitespace(w2)
    requires |x| > 0 && !IsWhitespace(x[0]) && !IsWhitespace(x[|x| - 1])
    ensures Trim(w1 + x + w2) == x
  {
    PaddingAroundText(w1, x, w2);
    TrimOfPadded(w1 + x + w2, |w1|, |w1| + |x|);
  }

  /** `trim` keeps exactly the infix `s[a..b]` when everything outside it is
      whitespace and its two ends are not. */
  lemma TrimOfPadded(s: string, a: int, b: int)
    requires 0 <= a < b <= |s|
    requires forall k :: 0 <= k < a ==> IsWhitespace(s[k])
    requires forall k :: b <= k < |s| ==> IsWhitespace(s[k])
    requires !IsWhitespace(s[a]) && !IsWhitespace(s[b - 1])
    ensures Trim(s) == s[a..b]
  {
    TrimStartOfPadded(s, a);
    DropKeepsPadding(s, a, b);
    TrimEndOfPadded(s[a..], b - a);
  }

  /** What `s[a..]` looks like to `trimEnd` when `s[b..]` is whitespace and
      `s[b - 1]` is not. */
  lemma DropKeepsPadding(s: string, a: int, b: int)
    requires 0 <= a < b <= |s|
    requires forall k :: b <= k < |s| ==> IsWhitespace(s[k])
    requires !IsWhitespace(s[b - 1])
    ensures forall k :: b - a <= k < |s[a..]| ==> IsWhitespace(s[a..][k])
    ensures !IsWhitespace(s[a..][b - a - 1])
    ensures s[a..][..b - a] == s[a..b]
  {
    var t := s[a..];
    forall k | b - a <= k < |t| ensures IsWhitespace(t[k]) {
      assert t[k] == s[a + k];
    }
    assert t[b - a - 1] == s[b - 1];
  }

  /** `trimStart` drops exactly the leading whitespace before index `a`. */
  lemma {:induction false} TrimStartOfPadded(s: string, a: int)
    requires 0 <= a < |s|
    requires forall k :: 0 <= k < a ==> IsWhitespace(s[k])
    requires !IsWhitespace(s[a])
    ensures TrimStart(s) == s[a..]
    decreases a
  {
    if a > 0 {
      var t := s[1..];
      forall k | 0 <= k < a - 1 ensures IsWhitespace(t[k]) {
        assert t[k] == s[k + 1];
      }
      assert t[a - 1] == s[a];
      TrimStartOfPadded(t, a - 1);
      assert t[a - 1..] == s[a..];
    }
  }

  /** `trimEnd` drops exactly the trailing whitespace from index `b` on. */
  lemma {:induction false} TrimEndOfPadded(s: string, b: int)
    requires 0 < b <= |s|
    requires forall k :: b <= k < |s| ==> IsWhitespace(s[k])
    requires !IsWhitespace(s[b - 1])
    ensures TrimEnd(s) == s[..b]
    decreases |s| - b
  {
    if b < |s| {
      var t := s[..|s| - 1];
      forall k | b <= k < |t| ensures IsWhitespace(t[k]) {
        assert t[k] == s[k];
      }
      assert t[b - 1] == s[b - 1];
      TrimEndOfPadded(t, b);
      assert t[..b] == s[..b];
    }
  }

  /** `trim` on text followed by whitespace only. */
  lemma TrimPaddedRight(x: string, w: string)
    requires AllWhitespace(w)
    requires |x| > 0 && !IsWhitespace(x[0]) && !IsWhitespace(x[|x| - 1])
    ensures Trim(x + w) == x
  {
    EmptyFirst(x, w);
    TrimAround("", x, w);
  }

  /** `trim` on text preceded by whitespace only. */
  lemma TrimPaddedLeft(w: string, x: string)
    requires AllWhitespace(w)
    requires |x| > 0 && !IsWhitespace(x[0]) && !IsWhitespace(x[|x| - 1])
    ensures Trim(w + x) == x
  {
    EmptyLast(w, x);
    TrimAround(w, x, "");
  }

  lemma EmptyFirst(x: string, w: string)
    ensures "" + x + w == x + w
  {
  }

  lemma EmptyLast(w: string, x: string)
    ensures w + x + "" == w + x
  {
  }

  /** Regrouping the middle three parts of a five-part concatenation. */
  lemma GroupMiddle(a: string, b: string, c: string, d: string, e: string)
    ensures a + b + c + d + e == a + (b + c + d) + e
  {
  }

  /** The padding of `w1 + x + w2` is whitespace. */
  lemma PaddingAroundText(w1: string, x: string, w2: string)
    requires AllWhitespace(w1) && AllWhitespace(w2) && |x| > 0
    ensures forall k :: 0 <= k < |w1| ==> IsWhitespace((w1 + x + w2)[k])
    ensures forall k :: |w1| + |x| <= k < |w1 + x + w2| ==> IsWhitespace((w1 + x + w2)[k])
    ensures (w1 + x + w2)[|w1|] == x[0] && (w1 + x + w2)[|w1| + |x| - 1] == x[|x| - 1]
    ensures (w1 + x + w2)[|w1|..|w1| + |x|] == x
  {
    var s := w1 + x + w2;
    forall k | |w1| + |x| <= k < |s| ensures IsWhitespace(s[k]) {
      assert s[k] == w2[k - |w1| - |x|];
    }
  }

  /** Every character of an all-whitespace prefix is whitespace. */
  lemma WhitespacePrefix(s: string, i: int)
    requires 0 <= i <= |s| && AllWhitespace(s[..i])
    ensures forall k :: 0 <= k < i ==> IsWhitespace(s[k])
  {
    forall k | 0 <= k < i ensures IsWhitespace(s[k]) {
      assert s[..i][k] == s[k];
    }
  }

  /** Every character of an all-whitespace suffix is whitespace. */
  lemma WhitespaceSuffix(s: string, e: int)
    requires 0 <= e <= |s| && AllWhitespace(s[e..])
    ensures forall k :: e <= k < |s| ==> IsWhitespace(s[k])
  {
    forall k | e <= k < |s| ensures IsWhitespace(s[k]) {
      assert s[e..][k - e] == s[k];
    }
  }

  /** A string that does not start with whitespace keeps its first
      character through `trim`. */
  lemma TrimKeepsFirst(s: string)
    requires |s| > 0 && !IsWhitespace(s[0])
    ensures |Trim(s)| > 0 && Trim(s)[0] == s[0]
  {
    var r := Trim(s);
    var i :| 0 <= i <= |s| - |r| && r == s[i..i + |r|] && AllWhitespace(s[..i]) && AllWhitespace(s[i + |r|..]);
    WhitespacePrefix(s, i);
    WhitespaceSuffix(s, i + |r|);
    assert i == 0 && |r| > 0;
  }
}
