/**
  Python's `str.strip()` with no argument, as `add_task` applies it to the
  text of the entry field before deciding whether there is a task to add.
  Like the interpreter, the model finds the first character that is not
  whitespace, then the last, and keeps what lies between.
 */
module Text {

  /** The characters for which Python's `str.isspace()` holds: the ASCII
      tab, line feed, vertical tab, form feed and carriage return, the
      file, group, record and unit separators, space, next line, no-break
      space, and Unicode's other space and line/paragraph separators. */
  const WhitespaceChars: set<char> := {
    '\t', '\n', '\U{0B}', '\U{0C}', '\r',
    '\U{1C}', '\U{1D}', '\U{1E}', '\U{1F}', ' ',
    '\U{85}', '\U{A0}', '\U{1680}',
    '\U{2000}', '\U{2001}', '\U{2002}', '\U{2003}', '\U{2004}', '\U{2005}',
    '\U{2006}', '\U{2007}', '\U{2008}', '\U{2009}', '\U{200A}',
    '\U{2028}', '\U{2029}', '\U{202F}', '\U{205F}', '\U{3000}'
  }

  /** What `strip()` removes from both ends of a string. */
  predicate IsWhitespace(c: char) {
    c in WhitespaceChars
  }

  predicate AllWhitespace(s: string) {
    forall i :: 0 <= i < |s| ==> IsWhitespace(s[i])
  }

  /** Neither end of s is whitespace (vacuously so for the empty string). */
  predicate Trimmed(s: string) {
    s == [] || (!IsWhitespace(s[0]) && !IsWhitespace(s[|s| - 1]))
  }

  /** Scanning forward from i: the first position at or after i that does
      not hold whitespace, or |s| if there is none. */
  function SkipForward(s: string, i: nat): (lo: nat)
    requires i <= |s|
    ensures i <= lo <= |s|
    ensures forall k :: i <= k < lo ==> IsWhitespace(s[k])
    ensures lo < |s| ==> !IsWhitespace(s[lo])
    decreases |s| - i
  {
    if i < |s| && IsWhitespace(s[i]) then SkipForward(s, i + 1) else i
  }

  /** Scanning backward from j, but not below lo: the end of the last
      character in s[lo..j] that is not whitespace, or lo if there is none. */
  function SkipBackward(s: string, lo: nat, j: nat): (hi: nat)
    requires lo <= j <= |s|
    ensures lo <= hi <= j
    ensures forall k :: hi <= k < j ==> IsWhitespace(s[k])
    ensures lo < hi ==> !IsWhitespace(s[hi - 1])
    decreases j
  {
    if lo < j && IsWhitespace(s[j - 1]) then SkipBackward(s, lo, j - 1) else j
  }

  /** The forward scan stops at the first non-whitespace position n: it
      cannot stop earlier or pass over it. */
  lemma SkipForwardStopsAt(s: string, i: nat, n: nat)
    requires i <= n <= |s|
    requires forall k :: i <= k < n ==> IsWhitespace(s[k])
    requires n < |s| ==> !IsWhitespace(s[n])
    ensures SkipForward(s, i) == n
  {
  }

  /** The backward scan stops just after the last non-whitespace position. */
  lemma SkipBackwardStopsAt(s: string, lo: nat, j: nat, n: nat)
    requires lo <= n <= j <= |s|
    requires forall k :: n <= k < j ==> IsWhitespace(s[k])
    requires lo < n ==> !IsWhitespace(s[n - 1])
    ensures SkipBackward(s, lo, j) == n
  {
  }

  /** Where the stripped text starts in s. */
  function Lead(s: string): nat {
    SkipForward(s, 0)
  }

  /** Where the stripped text ends in s. */
  function Tail(s: string): nat {
    SkipBackward(s, Lead(s), |s|)
  }

  /** `str.strip()`: s with the whitespace at both of its ends removed.
      Neither end of the result is whitespace, and the result is empty
      exactly when s is nothing but whitespace. */
  function Strip(s: string): (r: string)
    ensures Trimmed(r)
    ensures r == [] <==> AllWhitespace(s)
    ensures |r| <= |s|
  {
    var lo := Lead(s);
    var hi := Tail(s);
    assert lo < |s| ==> lo < hi;
    s[lo..hi]
  }

  /** s is cut into three consecutive pieces at lo and hi. */
  lemma {:induction false} SplitAt(s: string, lo: nat, hi: nat)
    requires lo <= hi <= |s|
    ensures s == s[..lo] + s[lo..hi] + s[hi..]
  {
  }

  /** What strip removes: s is its result with a run of whitespace on
      either side. */
  lemma {:induction false} StripRemovesPadding(s: string)
    ensures s == s[..Lead(s)] + Strip(s) + s[Tail(s)..]
    ensures AllWhitespace(s[..Lead(s)]) && AllWhitespace(s[Tail(s)..])
  {
    var lo, hi := Lead(s), Tail(s);
    SplitAt(s, lo, hi);
    forall k | 0 <= k < |s| - hi ensures IsWhitespace(s[hi..][k]) {
      assert s[hi..][k] == s[hi + k];
    }
  }

  /** Strip is determined by what it promises: whatever trimmed string r is
      padded with whitespace on both sides, stripping gives back r. */
  lemma {:induction false} StripOfPadded(a: string, r: string, b: string)
    requires AllWhitespace(a) && AllWhitespace(b) && Trimmed(r)
    ensures Strip(a + r + b) == r
  {
    var s := a + r + b;
    if r != [] {
      assert s[|a|] == r[0] && s[|a| + |r| - 1] == r[|r| - 1];
      assert forall k :: 0 <= k < |a| ==> s[k] == a[k];
      assert forall k :: |a| + |r| <= k < |s| ==> s[k] == b[k - |a| - |r|];
      SkipForwardStopsAt(s, 0, |a|);
      SkipBackwardStopsAt(s, |a|, |s|, |a| + |r|);
      assert s[|a|..|a| + |r|] == r;
    } else {
      assert AllWhitespace(s) by {
        assert forall k :: 0 <= k < |s| ==> s[k] == if k < |a| then a[k] else b[k - |a|];
      }
    }
  }

  /** Text already without surrounding whitespace strips to itself. */
  lemma {:induction false} StripKeeps(s: string)
    requires Trimmed(s)
    ensures Strip(s) == s
  {
    assert [] + s + [] == s;
    StripOfPadded([], s, []);
  }

  /** Stripping twice is stripping once. */
  lemma {:induction false} StripIdempotent(s: string)
    ensures Strip(Strip(s)) == Strip(s)
  {
    StripKeeps(Strip(s));
  }
}
