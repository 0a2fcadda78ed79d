/** Character classes and the few string operations the BibTeX tools rely on: ASCII
    lower-casing, whitespace trimming, splitting a text into lines and joining it back. */
module Text {

  import opened Wrappers

  /** Whitespace as the line scanners see it. */
  predicate IsSpace(c: char) {
    c == ' ' || c == '\t' || c == '\r' || c == '\n'
  }

  predicate IsLetter(c: char) {
    ('a' <= c <= 'z') || ('A' <= c <= 'Z')
  }

  predicate IsDigit(c: char) {
    '0' <= c <= '9'
  }

  /** A "word" character: letter, digit or underscore. */
  predicate IsWordChar(c: char) {
    IsLetter(c) || IsDigit(c) || c == '_'
  }

  predicate AllLetters(s: string) {
    forall i :: 0 <= i < |s| ==> IsLetter(s[i])
  }

  function LowerChar(c: char): (r: char)
    ensures 'A' <= c <= 'Z' ==> 'a' <= r <= 'z'
    ensures !('A' <= c <= 'Z') ==> r == c
  {
    if 'A' <= c <= 'Z' then (c as int - 'A' as int + 'a' as int) as char else c
  }

  /** ASCII lower-casing, character by character. */
  function Lower(s: string): (r: string)
    ensures |r| == |s|
    ensures forall i :: 0 <= i < |s| ==> r[i] == LowerChar(s[i])
  {
    seq(|s|, i requires 0 <= i < |s| => LowerChar(s[i]))
  }

  lemma LowerAppend(a: string, b: string)
    ensures Lower(a + b) == Lower(a) + Lower(b)
  {
  }

  lemma LowerIdempotent(s: string)
    ensures Lower(Lower(s)) == Lower(s)
  {
  }

  /** A text without upper-case letters is its own lower-case form. */
  lemma LowerOfLowerCase(s: string)
    requires forall i :: 0 <= i < |s| ==> !('A' <= s[i] <= 'Z')
    ensures Lower(s) == s
  {
  }

  predicate StartsWith(s: string, prefix: string) {
    |prefix| <= |s| && s[..|prefix|] == prefix
  }

  /** Index of the first occurrence of `c` at or after `from`. */
  function IndexOfFrom(s: string, c: char, from: nat): (r: Option<nat>)
    requires from <= |s|
    ensures r.None? ==> forall j :: from <= j < |s| ==> s[j] != c
    ensures r.Some? ==> from <= r.value < |s| && s[r.value] == c
                        && forall j :: from <= j < r.value ==> s[j] != c
    decreases |s| - from
  {
    if from == |s| then None
    else if s[from] == c then Some(from)
    else IndexOfFrom(s, c, from + 1)
  }

  function IndexOf(s: string, c: char): (r: Option<nat>)
    ensures r.None? ==> c !in s
    ensures r.Some? ==> r.value < |s| && s[r.value] == c && c !in s[..r.value]
  {
    IndexOfFrom(s, c, 0)
  }

  /** Number of leading whitespace characters. */
  function LeadingSpaces(s: string): (n: nat)
    ensures n <= |s|
    ensures forall i :: 0 <= i < n ==> IsSpace(s[i])
    ensures n < |s| ==> !IsSpace(s[n])
  {
    if s == [] || !IsSpace(s[0]) then 0 else 1 + LeadingSpaces(s[1..])
  }

  /** Number of trailing whitespace characters. */
  function TrailingSpaces(s: string): (n: nat)
    ensures n <= |s|
    ensures forall i :: |s| - n <= i < |s| ==> IsSpace(s[i])
    ensures n < |s| ==> !IsSpace(s[|s| - n - 1])
  {
    if s == [] || !IsSpace(s[|s| - 1]) then 0 else 1 + TrailingSpaces(s[..|s| - 1])
  }

  /** Whitespace removed at both ends (Python's str.strip()). */
  function Trim(s: string): (r: string)
    ensures |r| <= |s|
    ensures r != [] ==> !IsSpace(r[0]) && !IsSpace(r[|r| - 1])
    ensures LeadingSpaces(s) + |r| <= |s| && r == s[LeadingSpaces(s)..LeadingSpaces(s) + |r|]
  {
    var a := LeadingSpaces(s);
    var rest := s[a..];
    rest[..|rest| - TrailingSpaces(rest)]
  }

  lemma TrimOfTrimmed(s: string)
    requires s == [] || (!IsSpace(s[0]) && !IsSpace(s[|s| - 1]))
    ensures Trim(s) == s
  {
  }

  /** Text surrounded by whitespace alone trims to that text. */
  lemma TrimAround(pre: string, t: string, post: string)
    requires forall i :: 0 <= i < |pre| ==> IsSpace(pre[i])
    requires forall i :: 0 <= i < |post| ==> IsSpace(post[i])
    requires t != [] && !IsSpace(t[0]) && !IsSpace(t[|t| - 1])
    ensures Trim(pre + t + post) == t
  {
    var s := pre + t + post;
    var a := LeadingSpaces(s);
    assert s[|pre|] == t[0];
    assert a == |pre|;
    var rest := s[a..];
    assert rest == t + post;
    var n := TrailingSpaces(rest);
    assert rest[|t| - 1] == t[|t| - 1];
    assert rest[..|rest| - n] == t;
  }

  /** Lower-casing does not move the whitespace, so it commutes with trimming. */
  lemma {:induction false} LeadingSpacesLower(s: string)
    ensures LeadingSpaces(Lower(s)) == LeadingSpaces(s)
  {
    if s != [] && IsSpace(s[0]) {
      assert Lower(s)[1..] == Lower(s[1..]);
      LeadingSpacesLower(s[1..]);
    }
  }

  lemma {:induction false} TrailingSpacesLower(s: string)
    ensures TrailingSpaces(Lower(s)) == TrailingSpaces(s)
  {
    if s != [] && IsSpace(s[|s| - 1]) {
      assert Lower(s)[..|s| - 1] == Lower(s[..|s| - 1]);
      TrailingSpacesLower(s[..|s| - 1]);
    }
  }

  lemma TrimLower(s: string)
    ensures Trim(Lower(s)) == Lower(Trim(s))
  {
    LeadingSpacesLower(s);
    var a := LeadingSpaces(s);
    var rest := s[a..];
    assert Lower(s)[a..] == Lower(rest);
    TrailingSpacesLower(rest);
    var n := |rest| - TrailingSpaces(rest);
    assert Trim(s) == rest[..n];
    assert Trim(Lower(s)) == Lower(rest)[..n];
    assert Lower(rest)[..n] == Lower(rest[..n]);
  }

  /** Number of occurrences of `c` in `s`. */
  function Count(s: string, c: char): (n: nat)
    ensures n <= |s|
    ensures n == 0 <==> c !in s
  {
    if s == [] then 0 else (if s[0] == c then 1 else 0) + Count(s[1..], c)
  }

  lemma {:induction false} CountAppend(a: string, b: string, c: char)
    ensures Count(a + b, c) == Count(a, c) + Count(b, c)
    decreases |a|
  {
    if a != [] {
      assert (a + b)[1..] == a[1..] + b;
      CountAppend(a[1..], b, c);
    } else {
      assert a + b == b;
    }
  }

  /** The text split at every newline (Python's str.split('\n')): a text with k newlines has
      k + 1 lines, the last one possibly empty. */
  function SplitLines(s: string): (lines: seq<string>)
    ensures |lines| == Count(s, '\n') + 1
    ensures forall i :: 0 <= i < |lines| ==> '\n' !in lines[i]
    decreases |s|
  {
    match IndexOf(s, '\n')
    case None => [s]
    case Some(i) =>
      assert Count(s, '\n') == Count(s[..i], '\n') + 1 + Count(s[i + 1..], '\n') by {
        CountSplit(s, i);
      }
      [s[..i]] + SplitLines(s[i + 1..])
  }

  lemma {:induction false} CountSplit(s: string, i: nat)
    requires i < |s| && s[i] == '\n'
    ensures Count(s, '\n') == Count(s[..i], '\n') + 1 + Count(s[i + 1..], '\n')
  {
    if i > 0 {
      assert s[1..][..i - 1] == s[1..i];
      assert s[..i][1..] == s[1..i];
      assert s[1..][i..] == s[i + 1..];
      CountSplit(s[1..], i - 1);
    } else {
      assert s[1..] == s[i + 1..];
    }
  }

  /** A character the text does not contain is in none of its lines. */
  lemma {:induction false} SplitLinesWithout(s: string, c: char)
    requires c !in s
    ensures forall l :: l in SplitLines(s) ==> c !in l
    decreases |s|
  {
    match IndexOf(s, '\n')
    case None =>
    case Some(i) =>
      assert s == s[..i] + [s[i]] + s[i + 1..];
      SplitLinesWithout(s[i + 1..], c);
  }

  /** The lines joined back with newlines: the inverse of SplitLines. */
  function JoinLines(lines: seq<string>): (s: string)
    requires |lines| >= 1
  {
    if |lines| == 1 then lines[0] else lines[0] + "\n" + JoinLines(lines[1..])
  }

  lemma {:induction false} JoinSplit(s: string)
    ensures JoinLines(SplitLines(s)) == s
    decreases |s|
  {
    match IndexOf(s, '\n')
    case None =>
    case Some(i) =>
      JoinSplit(s[i + 1..]);
      assert s == s[..i] + "\n" + s[i + 1..];
  }

  /** Splitting at the first newline. */
  lemma SplitAtFirst(s: string, i: nat)
    requires i < |s| && s[i] == '\n' && '\n' !in s[..i]
    ensures SplitLines(s) == [s[..i]] + SplitLines(s[i + 1..])
  {
    var r := IndexOf(s, '\n');
    assert '\n' in s by {
      assert s[i] == '\n';
    }
  }

  /** A line without newline, a newline, then the rest. */
  lemma SplitCons(head: string, rest: string)
    requires '\n' !in head
    ensures SplitLines(head + "\n" + rest) == [head] + SplitLines(rest)
  {
    var s := head + "\n" + rest;
    var i := |head|;
    assert s[..i] == head && s[i + 1..] == rest;
    SplitAtFirst(s, i);
  }

  lemma {:induction false} SplitJoin(lines: seq<string>)
    requires |lines| >= 1
    requires forall i :: 0 <= i < |lines| ==> '\n' !in lines[i]
    ensures SplitLines(JoinLines(lines)) == lines
  {
    if |lines| > 1 {
      var tail := lines[1..];
      assert '\n' !in lines[0];
      SplitCons(lines[0], JoinLines(tail));
      assert forall j :: 0 <= j < |tail| ==> '\n' !in tail[j] by {
        forall j | 0 <= j < |tail| ensures '\n' !in tail[j] {
          assert tail[j] == lines[j + 1];
        }
      }
      SplitJoin(tail);
      assert lines == [lines[0]] + tail;
    }
  }
}
