/** The three string operations of Go's `strings` package (and their
    JavaScript counterparts `toLowerCase` / `includes`) that the analyser
    relies on: substring search, lower-casing and whitespace trimming. */
module Text {

  /** `strings.Contains(s, sub)` / `s.includes(sub)`: `sub` occurs somewhere in `s`. */
  predicate Contains(s: string, sub: string): (found: bool)
    ensures sub == [] ==> found
    decreases |s|
  {
    sub <= s || (|s| > 0 && Contains(s[1..], sub))
  }

  /** The positional reading of an occurrence. */
  ghost predicate OccursAt(s: string, sub: string, i: int)
  {
    0 <= i && i + |sub| <= |s| && s[i..i + |sub|] == sub
  }

  /** An occurrence at position `i` makes `Contains` true. */
  lemma {:induction false} ContainsAt(s: string, sub: string, i: int)
    requires OccursAt(s, sub, i)
    ensures Contains(s, sub)
    decreases i
  {
    if i > 0 {
      assert s[1..][i - 1..i - 1 + |sub|] == s[i..i + |sub|];
      ContainsAt(s[1..], sub, i - 1);
    }
  }

  /** `Contains` holds only if there is an occurrence at some position. */
  lemma {:induction false} ContainsHasOccurrence(s: string, sub: string)
    requires Contains(s, sub)
    ensures exists i :: OccursAt(s, sub, i)
    decreases |s|
  {
    if sub <= s {
      assert OccursAt(s, sub, 0);
    } else {
      ContainsHasOccurrence(s[1..], sub);
      var i :| OccursAt(s[1..], sub, i);
      assert s[1..][i..i + |sub|] == s[i + 1..i + 1 + |sub|];
      assert OccursAt(s, sub, i + 1);
    }
  }

  lemma ContainsIff(s: string, sub: string)
    ensures Contains(s, sub) <==> exists i :: OccursAt(s, sub, i)
  {
    if Contains(s, sub) {
      ContainsHasOccurrence(s, sub);
    }
    forall i | OccursAt(s, sub, i) ensures Contains(s, sub) {
      ContainsAt(s, sub, i);
    }
  }

  /** A string cannot occur where one of its characters never appears. */
  lemma AbsentCharBlocks(s: string, sub: string, c: char)
    requires c in sub && c !in s
    ensures !Contains(s, sub)
  {
    if Contains(s, sub) {
      ContainsHasOccurrence(s, sub);
    }
  }

  // ---------------------------------------------------------------- case

  /** ASCII lower-casing of one character. */
  function LowerChar(c: char): (r: char)
    ensures 'A' <= c <= 'Z' ==> r as int == c as int + 32
    ensures !('A' <= c <= 'Z') ==> r == c
  {
    if 'A' <= c <= 'Z' then (c as int + 32) as char else c
  }

  /** `strings.ToLower` / `toLowerCase`, on the ASCII letters. */
  function ToLower(s: string): (r: string)
    ensures |r| == |s|
    ensures forall i :: 0 <= i < |s| ==> r[i] == LowerChar(s[i])
  {
    seq(|s|, i requires 0 <= i < |s| => LowerChar(s[i]))
  }

  /** Lower-casing commutes with concatenation. */
  lemma ToLowerConcat(s: string, t: string)
    ensures ToLower(s + t) == ToLower(s) + ToLower(t)
  {
  }

  /** Lower-casing never produces a character that is not a lower-case letter
      unless that character was already there. */
  lemma LowerKeepsAbsence(s: string, c: char)
    requires !('a' <= c <= 'z') && c !in s
    ensures c !in ToLower(s)
  {
  }

  /** Lower-casing commutes with taking a slice. */
  lemma ToLowerSlice(s: string, a: int, b: int)
    requires 0 <= a <= b <= |s|
    ensures ToLower(s[a..b]) == ToLower(s)[a..b]
  {
  }

  // ---------------------------------------------------------------- space

  /** Go's `unicode.IsSpace`: the Latin-1 spaces plus the Unicode White_Space code points. */
  predicate IsSpace(c: char)
  {
    c == ' ' || c == '\t' || c == '\n' || c == '\r' || c == '\U{000B}' || c == '\U{000C}'
    || c == '\U{0085}' || c == '\U{00A0}' || c == '\U{1680}'
    || ('\U{2000}' <= c <= '\U{200A}')
    || c == '\U{2028}' || c == '\U{2029}' || c == '\U{202F}' || c == '\U{205F}' || c == '\U{3000}'
  }

  predicate AllSpace(s: string)
  {
    forall i :: 0 <= i < |s| ==> IsSpace(s[i])
  }

  /** Length of the run of white space that `s` starts with. */
  function LeadingSpace(s: string): (a: nat)
    ensures a <= |s| && AllSpace(s[..a])
    ensures a < |s| ==> !IsSpace(s[a])
    decreases |s|
  {
    if |s| > 0 && IsSpace(s[0]) then
      var a := LeadingSpace(s[1..]);
      assert s[..a + 1] == [s[0]] + s[1..][..a];
      a + 1
    else
      0
  }

  /** Position where the run of white space that `s` ends with begins. */
  function TrailingSpace(s: string): (b: nat)
    ensures b <= |s| && AllSpace(s[b..])
    ensures b > 0 ==> !IsSpace(s[b - 1])
    decreases |s|
  {
    if |s| > 0 && IsSpace(s[|s| - 1]) then
      var b := TrailingSpace(s[..|s| - 1]);
      assert s[b..] == s[..|s| - 1][b..] + [s[|s| - 1]];
      b
    else
      |s|
  }

  /** Where the text kept by `TrimSpace` begins and ends. */
  function TrimStart(s: string): nat
  {
    LeadingSpace(s)
  }

  function TrimEnd(s: string): nat
  {
    LeadingSpace(s) + TrailingSpace(s[LeadingSpace(s)..])
  }

  /** `strings.TrimSpace`: drops leading and trailing white space. */
  function TrimSpace(s: string): (r: string)
    ensures TrimStart(s) <= TrimEnd(s) <= |s| && r == s[TrimStart(s)..TrimEnd(s)]
    ensures AllSpace(s[..TrimStart(s)]) && AllSpace(s[TrimEnd(s)..])
    ensures |r| > 0 ==> !IsSpace(r[0]) && !IsSpace(r[|r| - 1])
  {
    var a := LeadingSpace(s);
    var t := TrailingSpace(s[a..]);
    var b := a + t;
    assert s[a..][t..] == s[b..];
    assert 0 < t ==> s[a..b][t - 1] == s[a..][t - 1];
    s[a..b]
  }

  /** An occurrence of a string with non-space ends lies inside any
      span that only white space surrounds. */
  lemma OccurrenceInsideSpan(s: string, a: int, b: int, sub: string, i: int)
    requires 0 <= a <= b <= |s| && AllSpace(s[..a]) && AllSpace(s[b..])
    requires |sub| > 0 && !IsSpace(sub[0]) && !IsSpace(sub[|sub| - 1])
    requires OccursAt(s, sub, i)
    ensures a <= i && i + |sub| <= b
  {
    var last := i + |sub| - 1;
    assert s[i] == s[i..i + |sub|][0] == sub[0];
    assert s[last] == s[i..i + |sub|][|sub| - 1] == sub[|sub| - 1];
  }

  lemma SliceOfSlice(s: string, a: int, b: int, i: int, j: int)
    requires 0 <= a <= b <= |s| && 0 <= i <= j <= b - a
    ensures s[a..b][i..j] == s[a + i..a + j]
  {
    assert forall k :: 0 <= k < j - i ==> s[a..b][i..j][k] == s[a + i + k];
  }

  /** An occurrence in the whole string lies inside the span between the
      surrounding white space. */
  lemma OuterOccurrenceInSpan(s: string, a: int, b: int, sub: string)
    requires 0 <= a <= b <= |s| && AllSpace(s[..a]) && AllSpace(s[b..])
    requires |sub| > 0 && !IsSpace(sub[0]) && !IsSpace(sub[|sub| - 1])
    requires Contains(s, sub)
    ensures Contains(s[a..b], sub)
  {
    ContainsHasOccurrence(s, sub);
    var i :| OccursAt(s, sub, i);
    OccurrenceInsideSpan(s, a, b, sub, i);
    SliceOfSlice(s, a, b, i - a, i - a + |sub|);
    ContainsAt(s[a..b], sub, i - a);
  }

  /** An occurrence inside a span is one in the whole string. */
  lemma SpanOccurrenceIsOuter(s: string, a: int, b: int, sub: string)
    requires 0 <= a <= b <= |s|
    requires Contains(s[a..b], sub)
    ensures Contains(s, sub)
  {
    ContainsHasOccurrence(s[a..b], sub);
    var j :| OccursAt(s[a..b], sub, j);
    SliceOfSlice(s, a, b, j, j + |sub|);
    ContainsAt(s, sub, a + j);
  }

  /** Surrounding white space never hides nor creates an occurrence of a
      string that itself starts and ends with a non-space character. */
  lemma ContainsIgnoresSurroundingSpace(s: string, a: int, b: int, sub: string)
    requires 0 <= a <= b <= |s| && AllSpace(s[..a]) && AllSpace(s[b..])
    requires |sub| > 0 && !IsSpace(sub[0]) && !IsSpace(sub[|sub| - 1])
    ensures Contains(s[a..b], sub) <==> Contains(s, sub)
  {
    if Contains(s, sub) {
      OuterOccurrenceInSpan(s, a, b, sub);
    }
    if Contains(s[a..b], sub) {
      SpanOccurrenceIsOuter(s, a, b, sub);
    }
  }

  /** Searching the lower-cased, trimmed text finds exactly what searching
      the lower-cased untrimmed text finds, for a string with non-space ends. */
  lemma {:induction false} TrimmedSearch(s: string, sub: string)
    requires |sub| > 0 && !IsSpace(sub[0]) && !IsSpace(sub[|sub| - 1])
    ensures Contains(ToLower(TrimSpace(s)), sub) <==> Contains(ToLower(s), sub)
  {
    var a, b := TrimStart(s), TrimEnd(s);
    var low := ToLower(s);
    ToLowerSlice(s, a, b);
    ToLowerSlice(s, 0, a);
    ToLowerSlice(s, b, |s|);
    assert s[0..a] == s[..a] && low[0..a] == low[..a];
    assert s[b..|s|] == s[b..] && low[b..|s|] == low[b..];
    LowerKeepsAllSpace(s[..a]);
    LowerKeepsAllSpace(s[b..]);
    assert ToLower(TrimSpace(s)) == low[a..b];
    ContainsIgnoresSurroundingSpace(low, a, b, sub);
  }

  /** Lower-casing leaves white space as it is. */
  lemma LowerKeepsAllSpace(s: string)
    requires AllSpace(s)
    ensures AllSpace(ToLower(s))
  {
  }
}
