/** The few string primitives the input layer relies on, with Python 2's
    semantics for byte strings: `str.replace`, `str.split()` with no argument,
    `' '.join` and `str.rfind`. */
module Strings {

  /** `s.replace(pat, rep)`: every non-overlapping occurrence, scanned left to right. */
  function Replace(s: string, pat: string, rep: string): string
    requires |pat| > 0
    decreases |s|
  {
    if |s| < |pat| then s
    else if s[..|pat|] == pat then rep + Replace(s[|pat|..], pat, rep)
    else [s[0]] + Replace(s[1..], pat, rep)
  }

  /** A string without the first character of `pat` is left as it is. */
  lemma {:induction false} ReplaceAbsent(s: string, pat: string, rep: string)
    requires |pat| > 0
    requires forall i | 0 <= i < |s| :: s[i] != pat[0]
    ensures Replace(s, pat, rep) == s
  {
    if |s| >= |pat| {
      assert s[..|pat|][0] == s[0];
      ReplaceAbsent(s[1..], pat, rep);
    }
  }

  /** Replacing a single character distributes over concatenation. */
  lemma {:induction false} ReplaceConcat(a: string, b: string, pat: string, rep: string)
    requires |pat| == 1
    ensures Replace(a + b, pat, rep) == Replace(a, pat, rep) + Replace(b, pat, rep)
  {
    if a != [] {
      var ab := a + b;
      assert ab[1..] == a[1..] + b;
      assert ab[..1] == a[..1];
      ReplaceConcat(a[1..], b, pat, rep);
      var head := if a[..1] == pat then rep else a[..1];
      assert Replace(ab, pat, rep) == head + Replace(a[1..] + b, pat, rep);
      assert Replace(a, pat, rep) == head + Replace(a[1..], pat, rep);
      var x, y := Replace(a[1..], pat, rep), Replace(b, pat, rep);
      assert head + (x + y) == (head + x) + y;
    } else {
      assert a + b == b;
    }
  }

  /** A string that starts with `pat` has that occurrence replaced first. */
  lemma ReplaceAtFront(t: string, pat: string, rep: string)
    requires |pat| > 0
    ensures Replace(pat + t, pat, rep) == rep + Replace(t, pat, rep)
  {
    var s := pat + t;
    assert s[..|pat|] == pat;
    assert s[|pat|..] == t;
  }

  predicate Lacks(s: string, c: char) { forall i | 0 <= i < |s| :: s[i] != c }

  /** Replacing a character that occurs once, between two parts that lack it. */
  lemma ReplaceOnce(a: string, b: string, pat: string, rep: string)
    requires |pat| == 1 && Lacks(a, pat[0]) && Lacks(b, pat[0])
    ensures Replace(a + pat + b, pat, rep) == a + rep + b
  {
    assert Replace(a + (pat + b), pat, rep) == Replace(a, pat, rep) + Replace(pat + b, pat, rep) by {
      ReplaceConcat(a, pat + b, pat, rep);
    }
    assert Replace(a, pat, rep) == a by { ReplaceAbsent(a, pat, rep); }
    assert Replace(pat + b, pat, rep) == rep + b by {
      ReplaceAtFront(b, pat, rep);
      ReplaceAbsent(b, pat, rep);
    }
    assert a + pat + b == a + (pat + b);
    assert a + (rep + b) == a + rep + b;
  }

  /** A single-character string that is not `pat` is left as it is. */
  lemma ReplaceOther(c: char, pat: string, rep: string)
    requires |pat| == 1 && c != pat[0]
    ensures Replace([c], pat, rep) == [c]
  {
    ReplaceAbsent([c], pat, rep);
  }

  /** The whitespace of Python 2's `str.split()` on byte strings. */
  predicate IsSpace(c: char)
  {
    c == ' ' || c == '\t' || c == '\n' || c == '\r' || c == 11 as char || c == 12 as char
  }

  /** Length of the run of non-whitespace characters at the front of `s`. */
  function TokenLength(s: string): (n: nat)
    ensures n <= |s|
    ensures forall i | 0 <= i < n :: !IsSpace(s[i])
    ensures n < |s| ==> IsSpace(s[n])
    decreases |s|
  {
    if s == [] || IsSpace(s[0]) then 0 else 1 + TokenLength(s[1..])
  }

  /** `s.split()`: the maximal runs of non-whitespace characters, in order. */
  function Split(s: string): (words: seq<string>)
    ensures forall i | 0 <= i < |words| :: |words[i]| > 0
    ensures forall i, j | 0 <= i < |words| && 0 <= j < |words[i]| :: !IsSpace(words[i][j])
    decreases |s|
  {
    if s == [] then []
    else if IsSpace(s[0]) then Split(s[1..])
    else
      var n := TokenLength(s);
      [s[..n]] + Split(s[n..])
  }

  /** A line that is one run of non-whitespace characters splits into itself. */
  lemma SplitWord(s: string)
    requires |s| > 0 && forall i | 0 <= i < |s| :: !IsSpace(s[i])
    ensures Split(s) == [s]
  {
    assert TokenLength(s) == |s|;
    assert s[..|s|] == s;
  }

  /** `' '.join(words)`. */
  function JoinSpaces(words: seq<string>): string
  {
    if words == [] then ""
    else if |words| == 1 then words[0]
    else words[0] + " " + JoinSpaces(words[1..])
  }

  /** `s.rfind(c)`: the last index holding `c`, or -1 when there is none. */
  function RFind(s: string, c: char): (i: int)
    ensures -1 <= i < |s|
    ensures i >= 0 ==> s[i] == c
    ensures forall j | i < j < |s| :: s[j] != c
  {
    if s == [] then -1
    else if s[|s| - 1] == c then |s| - 1
    else RFind(s[..|s| - 1], c)
  }

  /** `s[i:]` for a non-negative index, as Python slices it (past the end it is empty). */
  function SliceFrom(s: string, i: int): string
    requires i >= 0
  {
    if i <= |s| then s[i..] else []
  }

  /** `s[:i]` for any index, as Python slices it (a negative index counts from the end). */
  function SliceTo(s: string, i: int): string
  {
    if i < 0 then (if |s| + i > 0 then s[..|s| + i] else [])
    else if i <= |s| then s[..i] else s
  }
}
