/**
 * The operations of `java.lang.String` that the token parser and the script
 * runner rely on, over `string == seq<char>`.
 */
module Strings {

  /** `pat` occurs in `s` starting at index `i`. */
  predicate OccursAt(s: string, pat: string, i: int)
  {
    0 <= i && i + |pat| <= |s| && MatchesFrom(s, pat, i, 0)
  }

  /** The characters of `pat` from index `j` on appear in `s` from `i + j` on. */
  predicate MatchesFrom(s: string, pat: string, i: nat, j: nat)
    requires i + |pat| <= |s|
    decreases |pat| - j
  {
    j >= |pat| || (s[i + j] == pat[j] && MatchesFrom(s, pat, i, j + 1))
  }

  lemma {:induction false} MatchesFromIff(s: string, pat: string, i: nat, j: nat)
    requires i + |pat| <= |s|
    ensures MatchesFrom(s, pat, i, j) <==> forall k :: j <= k < |pat| ==> s[i + k] == pat[k]
    decreases |pat| - j
  {
    if j < |pat| {
      MatchesFromIff(s, pat, i, j + 1);
    }
  }

  /** An occurrence is a slice equal to the pattern. */
  lemma OccursAtSlice(s: string, pat: string, i: nat)
    requires i + |pat| <= |s|
    ensures OccursAt(s, pat, i) <==> s[i..i + |pat|] == pat
  {
    MatchesFromIff(s, pat, i, 0);
    if forall k :: 0 <= k < |pat| ==> s[i + k] == pat[k] {
      assert s[i..i + |pat|] == pat;
    }
  }

  /** `s.indexOf(pat, from)`: the first occurrence of `pat` at or after `from`, or -1. */
  function IndexOf(s: string, pat: string, from: nat): (i: int)
    requires from <= |s|
    ensures i == -1 || (from <= i && i + |pat| <= |s|)
    decreases |s| - from
  {
    if OccursAt(s, pat, from) then from
    else if |s| <= from + |pat| then -1
    else IndexOf(s, pat, from + 1)
  }

  /** `IndexOf` finds an occurrence, and the first one: none lies between `from` and it. */
  lemma {:induction false} IndexOfFirst(s: string, pat: string, from: nat)
    requires from <= |s|
    ensures var i := IndexOf(s, pat, from);
      (i == -1 || OccursAt(s, pat, i)) &&
      forall k :: from <= k && (i == -1 || k < i) ==> !OccursAt(s, pat, k)
    decreases |s| - from
  {
    if !OccursAt(s, pat, from) && from + |pat| < |s| {
      IndexOfFirst(s, pat, from + 1);
    }
  }

  /** `s.contains(pat)`: it holds exactly when `pat` occurs somewhere in `s`. */
  predicate Contains(s: string, pat: string)
    ensures Contains(s, pat) <==> exists k :: OccursAt(s, pat, k)
  {
    IndexOfFirst(s, pat, 0);
    IndexOf(s, pat, 0) != -1
  }

  /** The last occurrence of `pat` at or before `k`, or -1. */
  function LastIndexAtOrBefore(s: string, pat: string, k: int): (i: int)
    ensures i == -1 || (0 <= i <= k && OccursAt(s, pat, i))
    decreases k + 1
  {
    if k < 0 then -1
    else if OccursAt(s, pat, k) then k
    else LastIndexAtOrBefore(s, pat, k - 1)
  }

  lemma {:induction false} LastIndexAtOrBeforeLast(s: string, pat: string, k: int)
    ensures forall j :: LastIndexAtOrBefore(s, pat, k) < j <= k ==> !OccursAt(s, pat, j)
    decreases k + 1
  {
    if k >= 0 && !OccursAt(s, pat, k) {
      LastIndexAtOrBeforeLast(s, pat, k - 1);
    }
  }

  /** `s.lastIndexOf(pat)`: the last occurrence of `pat` in `s`, or -1. */
  function LastIndexOf(s: string, pat: string): (i: int)
    ensures i == -1 || OccursAt(s, pat, i)
  {
    LastIndexAtOrBefore(s, pat, |s| - |pat|)
  }

  /** No occurrence of `pat` lies after `s.lastIndexOf(pat)`. */
  lemma LastIndexOfLast(s: string, pat: string)
    ensures forall j :: LastIndexOf(s, pat) < j ==> !OccursAt(s, pat, j)
  {
    LastIndexAtOrBeforeLast(s, pat, |s| - |pat|);
  }

  /** `s.replaceFirst(pat, "")` for a pattern without regular-expression metacharacters. */
  function RemoveFirst(s: string, pat: string): (r: string)
    ensures IndexOf(s, pat, 0) == -1 ==> r == s
    ensures IndexOf(s, pat, 0) != -1 ==>
      var i := IndexOf(s, pat, 0); |r| == |s| - |pat| && s == r[..i] + pat + r[i..]
  {
    var i := IndexOf(s, pat, 0);
    IndexOfFirst(s, pat, 0);
    if i == -1 then s
    else
      OccursAtSlice(s, pat, i);
      s[..i] + s[i + |pat|..]
  }

  /**
   * The characters of `s` from index `a` up to (not including) `b`, as
   * `String.substring(a, b)` and `StringBuilder.append(chars, a, b - a)` take
   * them. It is defined character by character, so that a proof looks inside
   * it only where it needs to; `SubstringIsSlice` ties it to `s[a..b]`.
   */
  function Substring(s: string, a: nat, b: nat): (r: string)
    requires a <= b <= |s|
    ensures |r| == b - a
    decreases b - a
  {
    if a == b then [] else Substring(s, a, b - 1) + [s[b - 1]]
  }

  lemma {:induction false} SubstringIsSlice(s: string, a: nat, b: nat)
    requires a <= b <= |s|
    ensures Substring(s, a, b) == s[a..b]
    decreases b - a
  {
    if a < b {
      SubstringIsSlice(s, a, b - 1);
      assert s[a..b] == s[a..b - 1] + [s[b - 1]];
    }
  }

  /** Two adjacent substrings make the substring that spans both. */
  lemma SubstringSplit(s: string, a: nat, m: nat, b: nat)
    requires a <= m <= b <= |s|
    ensures Substring(s, a, m) + Substring(s, m, b) == Substring(s, a, b)
  {
    SubstringIsSlice(s, a, m);
    SubstringIsSlice(s, m, b);
    SubstringIsSlice(s, a, b);
    assert s[a..m] + s[m..b] == s[a..b];
  }

  /** An occurrence of `pat` at `i` is the substring that starts at `i`. */
  lemma OccursAtSubstring(s: string, pat: string, i: nat)
    requires OccursAt(s, pat, i)
    ensures Substring(s, i, i + |pat|) == pat
  {
    OccursAtSlice(s, pat, i);
    SubstringIsSlice(s, i, i + |pat|);
  }

  /** `String.trim` treats every character up to U+0020 as white space. */
  predicate IsSpace(c: char)
  {
    c <= ' '
  }

  /** The number of leading white-space characters of `s`. */
  function LeadingSpace(s: string): (n: nat)
    ensures n <= |s|
  {
    if s == [] || !IsSpace(s[0]) then 0 else 1 + LeadingSpace(s[1..])
  }

  lemma {:induction false} LeadingSpaceIsSpace(s: string)
    ensures forall i :: 0 <= i < LeadingSpace(s) ==> IsSpace(s[i])
    ensures LeadingSpace(s) < |s| ==> !IsSpace(s[LeadingSpace(s)])
    decreases |s|
  {
    if s != [] && IsSpace(s[0]) {
      LeadingSpaceIsSpace(s[1..]);
      forall i | 1 <= i < LeadingSpace(s)
        ensures IsSpace(s[i])
      {
        assert s[i] == s[1..][i - 1];
      }
    }
  }

  /** The length of `s` without its trailing white space. */
  function TrailingStart(s: string): (m: nat)
    ensures m <= |s|
  {
    if s == [] || !IsSpace(s[|s| - 1]) then |s| else TrailingStart(s[..|s| - 1])
  }

  lemma {:induction false} TrailingStartIsSpace(s: string)
    ensures forall i :: TrailingStart(s) <= i < |s| ==> IsSpace(s[i])
    ensures 0 < TrailingStart(s) ==> !IsSpace(s[TrailingStart(s) - 1])
    decreases |s|
  {
    if s != [] && IsSpace(s[|s| - 1]) {
      var p := s[..|s| - 1];
      TrailingStartIsSpace(p);
      assert TrailingStart(s) == TrailingStart(p);
      forall i | TrailingStart(s) <= i < |s| - 1
        ensures IsSpace(s[i])
      {
        assert s[i] == p[i];
      }
      if 0 < TrailingStart(s) {
        assert s[TrailingStart(s) - 1] == p[TrailingStart(p) - 1];
      }
    }
  }

  /**
   * `s.trim()`: the slice of `s` that starts at its first and ends at its last
   * character above U+0020; everything cut off is white space.
   */
  function Trim(s: string): (t: string)
    ensures |t| <= |s| - LeadingSpace(s)
    ensures t == s[LeadingSpace(s)..LeadingSpace(s) + |t|]
  {
    var u := s[LeadingSpace(s)..];
    u[..TrailingStart(u)]
  }

  /** What `Trim` cuts off at the end is white space. */
  lemma TrimCutsTrailingSpace(s: string)
    ensures forall i :: LeadingSpace(s) + |Trim(s)| <= i < |s| ==> IsSpace(s[i])
  {
    var a := LeadingSpace(s);
    var u := s[a..];
    TrailingStartIsSpace(u);
    forall i | a + |Trim(s)| <= i < |s|
      ensures IsSpace(s[i])
    {
      assert s[i] == u[i - a];
    }
  }

  /** What `Trim` keeps neither starts nor ends with white space. */
  lemma TrimKeepsNoSpace(s: string)
    ensures Trim(s) != [] ==> !IsSpace(Trim(s)[0]) && !IsSpace(Trim(s)[|Trim(s)| - 1])
  {
    var a := LeadingSpace(s);
    var u := s[a..];
    var t := Trim(s);
    if t != [] {
      LeadingSpaceIsSpace(s);
      TrailingStartIsSpace(u);
      assert t[0] == s[a];
      assert t[|t| - 1] == u[TrailingStart(u) - 1];
    }
  }

  /** What `Trim` cuts off is white space, and what it keeps neither starts nor ends with any. */
  lemma TrimCutsSpace(s: string)
    ensures forall i :: 0 <= i < LeadingSpace(s) ==> IsSpace(s[i])
    ensures forall i :: LeadingSpace(s) + |Trim(s)| <= i < |s| ==> IsSpace(s[i])
    ensures Trim(s) != [] ==> !IsSpace(Trim(s)[0]) && !IsSpace(Trim(s)[|Trim(s)| - 1])
  {
    LeadingSpaceIsSpace(s);
    TrimCutsTrailingSpace(s);
    TrimKeepsNoSpace(s);
  }

  /** A string is blank when trimming leaves nothing: every character is white space. */
  lemma TrimEmptyIff(s: string)
    ensures Trim(s) == [] <==> forall i :: 0 <= i < |s| ==> IsSpace(s[i])
  {
    TrimCutsSpace(s);
    if Trim(s) != [] {
      var a := LeadingSpace(s);
      assert s[a] == Trim(s)[0];
    }
  }

  /** An occurrence inside a slice is an occurrence in the whole string. */
  lemma SliceOccurrence(s: string, a: nat, b: nat, pat: string, k: int)
    requires a <= b <= |s| && OccursAt(s[a..b], pat, k)
    ensures OccursAt(s, pat, a + k)
  {
    MatchesFromIff(s[a..b], pat, k, 0);
    MatchesFromIff(s, pat, a + k, 0);
    forall i | 0 <= i < |pat|
      ensures s[a + k + i] == pat[i]
    {
      assert s[a..b][k + i] == s[a + k + i];
    }
  }

  /** Some occurrence bounds the last occurrence from below. */
  lemma LastIndexOfAtLeast(s: string, pat: string, k: int)
    requires OccursAt(s, pat, k)
    ensures LastIndexOf(s, pat) >= k
  {
    LastIndexOfLast(s, pat);
  }

  /** An occurrence of `pat` in `Trim(s)` is an occurrence in `s`, so `s` has a last one. */
  lemma TrimOccurrence(s: string, pat: string, k: int)
    requires OccursAt(Trim(s), pat, k)
    ensures OccursAt(s, pat, LeadingSpace(s) + k)
    ensures LastIndexOf(s, pat) >= LeadingSpace(s) + k
  {
    var a := LeadingSpace(s);
    var t := Trim(s);
    assert t == s[a..a + |t|];
    SliceOccurrence(s, a, a + |t|, pat, k);
    LastIndexOfAtLeast(s, pat, a + k);
  }

  /** ASCII `Character.toUpperCase`. */
  function UpperChar(c: char): (u: char)
    ensures 'a' <= c <= 'z' ==> 'A' <= u <= 'Z' && u as int == c as int - 32
    ensures !('a' <= c <= 'z') ==> u == c
  {
    if 'a' <= c <= 'z' then (c as int - 32) as char else c
  }

  /** `s.toUpperCase()`, for ASCII text. */
  function ToUpper(s: string): (u: string)
    ensures |u| == |s|
    ensures forall i :: 0 <= i < |s| ==> u[i] == UpperChar(s[i])
  {
    seq(|s|, i requires 0 <= i < |s| => UpperChar(s[i]))
  }

  /** `s` with every '\r' removed. */
  function WithoutCR(s: string): (r: string)
    ensures '\r' !in r
    ensures '\r' !in s ==> r == s
  {
    if s == [] then []
    else if s[0] == '\r' then WithoutCR(s[1..])
    else [s[0]] + WithoutCR(s[1..])
  }

  /**
   * `s.replaceAll("\r\n", "\n")`: every CR that starts a CR LF pair, scanning
   * left to right, is dropped; nothing else changes.
   */
  function NormalizeLineEnds(s: string): (r: string)
    ensures |r| <= |s|
  {
    if |s| < 2 then s
    else if s[0] == '\r' && s[1] == '\n' then "\n" + NormalizeLineEnds(s[2..])
    else [s[0]] + NormalizeLineEnds(s[1..])
  }

  /** The normalization only drops carriage returns. */
  lemma {:induction false} NormalizeLineEndsDropsOnlyCR(s: string)
    ensures WithoutCR(NormalizeLineEnds(s)) == WithoutCR(s)
    decreases |s|
  {
    if |s| >= 2 {
      var r := NormalizeLineEnds(s);
      if s[0] == '\r' && s[1] == '\n' {
        NormalizeLineEndsDropsOnlyCR(s[2..]);
        assert r == "\n" + NormalizeLineEnds(s[2..]);
        assert WithoutCR(r) == "\n" + WithoutCR(NormalizeLineEnds(s[2..]));
        assert s[1..] == "\n" + s[2..];
        assert WithoutCR(s[1..]) == "\n" + WithoutCR(s[2..]);
      } else {
        NormalizeLineEndsDropsOnlyCR(s[1..]);
        assert r == [s[0]] + NormalizeLineEnds(s[1..]);
        assert r[1..] == NormalizeLineEnds(s[1..]);
      }
    }
  }

  /** Text without carriage returns is left as it is. */
  lemma {:induction false} NormalizeLineEndsWithoutCR(s: string)
    requires '\r' !in s
    ensures NormalizeLineEnds(s) == s
    decreases |s|
  {
    if |s| >= 2 {
      assert s[0] != '\r';
      NormalizeLineEndsWithoutCR(s[1..]);
      assert s == [s[0]] + s[1..];
    }
  }

  lemma NormalizeLineEndsCRLF(b: string)
    ensures NormalizeLineEnds("\r\n" + b) == "\n" + NormalizeLineEnds(b)
  {
    var s := "\r\n" + b;
    assert s[0] == '\r' && s[1] == '\n' && s[2..] == b;
  }

  lemma NormalizeLineEndsCons(c: char, s: string)
    requires c != '\r'
    ensures NormalizeLineEnds([c] + s) == [c] + NormalizeLineEnds(s)
  {
    var t := [c] + s;
    assert t[1..] == s;
  }

  lemma NormalizeLineEndsCR(b: string)
    requires b == [] || b[0] != '\n'
    ensures NormalizeLineEnds("\r" + b) == "\r" + NormalizeLineEnds(b)
  {
    var s := "\r" + b;
    if b != [] {
      assert s[0] == '\r' && s[1] == b[0] && s[1..] == b;
    }
  }

  /** A carriage return that no line feed follows is kept. */
  lemma {:induction false} NormalizeLineEndsLoneCR(a: string, b: string)
    requires '\r' !in a
    requires b == [] || b[0] != '\n'
    ensures NormalizeLineEnds(a + "\r" + b) == a + "\r" + NormalizeLineEnds(b)
    decreases |a|
  {
    if a == [] {
      assert a + "\r" + b == "\r" + b;
      NormalizeLineEndsCR(b);
    } else {
      assert a + "\r" + b == [a[0]] + (a[1..] + "\r" + b);
      NormalizeLineEndsCons(a[0], a[1..] + "\r" + b);
      NormalizeLineEndsLoneCR(a[1..], b);
      assert a == [a[0]] + a[1..];
    }
  }

  /** A CR LF pair is the only thing the normalization rewrites. */
  lemma {:induction false} NormalizeLineEndsPair(a: string, b: string)
    requires '\r' !in a
    ensures NormalizeLineEnds(a + "\r\n" + b) == a + "\n" + NormalizeLineEnds(b)
    decreases |a|
  {
    if a == [] {
      assert a + "\r\n" + b == "\r\n" + b;
      NormalizeLineEndsCRLF(b);
    } else {
      assert a + "\r\n" + b == [a[0]] + (a[1..] + "\r\n" + b);
      NormalizeLineEndsCons(a[0], a[1..] + "\r\n" + b);
      NormalizeLineEndsPair(a[1..], b);
      assert a == [a[0]] + a[1..];
    }
  }
}
