/**
  The string primitives the codegen fix script relies on: JavaScript's
  `indexOf(search, from)`, `split(separator)` and `join(glue)`, and the
  `replaceAll` built from them (scripts/post-codegen-fix.js:8-10).

  `Rewrite` is an independent reference definition of "replace every
  non-overlapping occurrence, scanning left to right", and `Occurrences`
  counts the occurrences that scan replaces. The lemmas connect the
  split/join implementation to that reference.
*/
module TextPatch {

  /** `needle` occurs in `s` starting at index `i`. */
  predicate OccursAt(s: string, needle: string, i: int) {
    0 <= i && i + |needle| <= |s| && s[i..i + |needle|] == needle
  }

  predicate StartsWith(s: string, prefix: string) {
    |prefix| <= |s| && s[..|prefix|] == prefix
  }

  /** A text starts with a non-empty prefix when its head and tail match. */
  lemma ConsPrefix(c: char, x: string, prefix: string)
    requires |prefix| > 0
    ensures StartsWith([c] + x, prefix) <==> c == prefix[0] && StartsWith(x, prefix[1..])
  {
    var t := [c] + x;
    if |prefix| <= |t| {
      assert t[..|prefix|] == [c] + x[..|prefix| - 1];
    }
    if c == prefix[0] && StartsWith(x, prefix[1..]) {
      assert prefix == [prefix[0]] + prefix[1..];
    }
  }

  /** No occurrence of `needle` anywhere in `s`. */
  predicate Free(s: string, needle: string) {
    forall i :: 0 <= i <= |s| ==> !OccursAt(s, needle, i)
  }

  /**
    `s.indexOf(needle, from)`: the least index at or after `from` where
    `needle` occurs, or -1 when there is none.
  */
  function IndexOf(s: string, needle: string, from: nat): (r: int)
    requires |needle| > 0
    ensures r == -1 || (from <= r && OccursAt(s, needle, r))
    ensures r != -1 ==> forall i :: from <= i < r ==> !OccursAt(s, needle, i)
    ensures r == -1 ==> forall i :: from <= i ==> !OccursAt(s, needle, i)
    decreases |s| - from
  {
    if from + |needle| > |s| then -1
    else if s[from..from + |needle|] == needle then from
    else IndexOf(s, needle, from + 1)
  }

  /** `s.split(sep)` for a non-empty separator: the text between consecutive matches. */
  function SplitOn(s: string, sep: string): (pieces: seq<string>)
    requires |sep| > 0
    ensures |pieces| >= 1
    ensures forall k :: 0 <= k < |pieces| ==> Free(pieces[k], sep)
    decreases |s|
  {
    var i := IndexOf(s, sep, 0);
    if i == -1 then [s]
    else
      PrefixFree(s, sep, i);
      [s[..i]] + SplitOn(s[i + |sep|..], sep)
  }

  /** A prefix that ends before the first match holds no match. */
  lemma PrefixFree(s: string, sep: string, i: nat)
    requires |sep| > 0 && i <= |s|
    requires forall k :: 0 <= k < i ==> !OccursAt(s, sep, k)
    ensures Free(s[..i], sep)
  {
    forall p | 0 <= p <= i
      ensures !OccursAt(s[..i], sep, p)
    {
      if p + |sep| <= i {
        assert !OccursAt(s, sep, p);
        assert s[..i][p..p + |sep|] == s[p..p + |sep|];
      }
    }
  }

  /**
    `s.split("")`: one piece per character, none for the empty string.
    JavaScript splits per UTF-16 code unit instead, which differs only for
    characters beyond U+FFFF; the script never splits on "".
  */
  function Chars(s: string): (pieces: seq<string>)
    ensures |pieces| == |s|
    ensures forall k :: 0 <= k < |pieces| ==> pieces[k] == [s[k]]
  {
    seq(|s|, k requires 0 <= k < |s| => [s[k]])
  }

  function Split(s: string, sep: string): seq<string> {
    if |sep| == 0 then Chars(s) else SplitOn(s, sep)
  }

  /** `pieces.join(glue)`. */
  function Join(pieces: seq<string>, glue: string): (r: string)
    ensures |pieces| > 0 ==> pieces[0] <= r
    ensures |pieces| > 1 ==> pieces[0] + glue <= r
    decreases |pieces|
  {
    if |pieces| == 0 then ""
    else if |pieces| == 1 then pieces[0]
    else pieces[0] + glue + Join(pieces[1..], glue)
  }

  /** The script's `replaceAll(content, search, replacement)`: for a non-empty search, the left-to-right rewrite. */
  function ReplaceAll(content: string, search: string, replacement: string): (r: string)
    ensures |search| > 0 ==> r == Rewrite(content, search, replacement)
  {
    if |search| > 0 then SplitJoinIsRewrite(content, search, replacement); Join(Split(content, search), replacement)
    else Join(Split(content, search), replacement)
  }

  /** Reference: scan left to right, replace each match, resume after it. */
  function Rewrite(s: string, needle: string, replacement: string): string
    requires |needle| > 0
    decreases |s|
  {
    if |s| < |needle| then s
    else if s[..|needle|] == needle then replacement + Rewrite(s[|needle|..], needle, replacement)
    else [s[0]] + Rewrite(s[1..], needle, replacement)
  }

  /** The number of matches the left-to-right scan of `Rewrite` replaces. */
  function Occurrences(s: string, needle: string): nat
    requires |needle| > 0
    decreases |s|
  {
    if |s| < |needle| then 0
    else if s[..|needle|] == needle then 1 + Occurrences(s[|needle|..], needle)
    else Occurrences(s[1..], needle)
  }

  /** Text before the first occurrence is copied unchanged by the scan. */
  lemma {:induction false} RewriteSkip(s: string, needle: string, replacement: string, k: nat)
    requires |needle| > 0 && k <= |s|
    requires forall i :: 0 <= i < k ==> !OccursAt(s, needle, i)
    ensures Rewrite(s, needle, replacement) == s[..k] + Rewrite(s[k..], needle, replacement)
    ensures Occurrences(s, needle) == Occurrences(s[k..], needle)
    decreases k
  {
    if k > 0 {
      assert !OccursAt(s, needle, 0);
      if |s| < |needle| {
        assert Rewrite(s[k..], needle, replacement) == s[k..];
      } else {
        forall i | 0 <= i < k - 1
          ensures !OccursAt(s[1..], needle, i)
        {
          assert !OccursAt(s, needle, i + 1);
          if i + 1 + |needle| <= |s| {
            assert s[1..][i..i + |needle|] == s[i + 1..i + 1 + |needle|];
          }
        }
        RewriteSkip(s[1..], needle, replacement, k - 1);
        assert s[1..][k - 1..] == s[k..];
        assert s[..k] == [s[0]] + s[1..][..k - 1];
      }
    }
  }

  /** A match at the very start is replaced and the scan resumes after it. */
  lemma MatchAtStart(t: string, needle: string, replacement: string)
    requires |needle| > 0 && StartsWith(t, needle)
    ensures Rewrite(t, needle, replacement) == replacement + Rewrite(t[|needle|..], needle, replacement)
    ensures Occurrences(t, needle) == 1 + Occurrences(t[|needle|..], needle)
  {
  }

  /** A text without any match is copied unchanged, with nothing counted. */
  lemma NoMatch(s: string, needle: string, replacement: string)
    requires |needle| > 0
    requires forall i :: 0 <= i ==> !OccursAt(s, needle, i)
    ensures Rewrite(s, needle, replacement) == s && Occurrences(s, needle) == 0
  {
    RewriteSkip(s, needle, replacement, |s|);
    assert s[..|s|] == s;
    assert s[|s|..] == [];
  }

  /** At the first match `i`, the scan copies `s[..i]`, replaces the match, and resumes after it. */
  lemma MatchFirstAt(s: string, needle: string, replacement: string, i: nat)
    requires |needle| > 0 && OccursAt(s, needle, i)
    requires forall k :: 0 <= k < i ==> !OccursAt(s, needle, k)
    ensures Rewrite(s, needle, replacement) == s[..i] + replacement + Rewrite(s[i + |needle|..], needle, replacement)
    ensures Occurrences(s, needle) == 1 + Occurrences(s[i + |needle|..], needle)
  {
    RewriteSkip(s, needle, replacement, i);
    MatchAtIndex(s, needle, i);
    RewriteAtIndex(s, needle, replacement, i);
    var x := Rewrite(s[i + |needle|..], needle, replacement);
    assert s[..i] + (replacement + x) == s[..i] + replacement + x;
  }

  /** The rewrite of `s[i..]`, when a match starts at `i`. */
  lemma RewriteAtIndex(s: string, needle: string, replacement: string, i: nat)
    requires |needle| > 0 && OccursAt(s, needle, i)
    ensures Rewrite(s[i..], needle, replacement) == replacement + Rewrite(s[i + |needle|..], needle, replacement)
  {
    var t := s[i..];
    assert t[..|needle|] == s[i..i + |needle|];
    MatchAtStart(t, needle, replacement);
    assert t[|needle|..] == s[i + |needle|..];
  }

  /** `replaceAll` (split then join) is exactly the left-to-right scan. */
  lemma {:induction false} SplitJoinIsRewrite(s: string, needle: string, replacement: string)
    requires |needle| > 0
    ensures Join(Split(s, needle), replacement) == Rewrite(s, needle, replacement)
    ensures |Split(s, needle)| == Occurrences(s, needle) + 1
    decreases |s|
  {
    var i := IndexOf(s, needle, 0);
    if i == -1 {
      NoMatch(s, needle, replacement);
    } else {
      MatchFirstAt(s, needle, replacement, i);
      var rest := s[i + |needle|..];
      SplitJoinIsRewrite(rest, needle, replacement);
      var tail := SplitOn(rest, needle);
      assert SplitOn(s, needle) == [s[..i]] + tail;
      JoinCons(s[..i], tail, replacement);
    }
  }

  /** Joining a head onto a non-empty tail puts one glue between them. */
  lemma JoinCons(head: string, tail: seq<string>, glue: string)
    requires |tail| > 0
    ensures Join([head] + tail, glue) == head + glue + Join(tail, glue)
    ensures |[head] + tail| == |tail| + 1
  {
    assert ([head] + tail)[1..] == tail;
  }

  /** Replacing every match by the needle itself gives the text back. */
  lemma {:induction false} RewriteByNeedleIsIdentity(s: string, needle: string)
    requires |needle| > 0
    ensures Rewrite(s, needle, needle) == s
    decreases |s|
  {
    if |s| >= |needle| {
      if s[..|needle|] == needle {
        RewriteByNeedleIsIdentity(s[|needle|..], needle);
        assert s == s[..|needle|] + s[|needle|..];
      } else {
        RewriteByNeedleIsIdentity(s[1..], needle);
        assert s == [s[0]] + s[1..];
      }
    }
  }

  /** Splitting then joining with the same separator is a round trip. */
  lemma SplitJoinRoundTrip(s: string, sep: string)
    requires |sep| > 0
    ensures Join(Split(s, sep), sep) == s
  {
    SplitJoinIsRewrite(s, sep, sep);
    RewriteByNeedleIsIdentity(s, sep);
  }

  /** Every match grows or shrinks the text by the length difference. */
  lemma {:induction false} RewriteLength(s: string, needle: string, replacement: string)
    requires |needle| > 0
    ensures |Rewrite(s, needle, replacement)| == |s| + Occurrences(s, needle) * (|replacement| - |needle|)
    decreases |s|
  {
    if |s| >= |needle| {
      var d := |replacement| - |needle|;
      if s[..|needle|] == needle {
        var rest := s[|needle|..];
        RewriteLength(rest, needle, replacement);
        var o := Occurrences(rest, needle);
        assert |Rewrite(s, needle, replacement)| == |replacement| + |rest| + o * d;
        MulStep(o, d);
      } else {
        RewriteLength(s[1..], needle, replacement);
      }
    }
  }

  lemma MulStep(o: nat, d: int)
    ensures (1 + o) * d == d + o * d
  {
  }

  /** A count of zero means there is no occurrence at all, and conversely. */
  lemma {:induction false} OccurrencesZeroIffFree(s: string, needle: string)
    requires |needle| > 0
    ensures Occurrences(s, needle) == 0 <==> Free(s, needle)
  {
    var i := IndexOf(s, needle, 0);
    if i == -1 {
      NoMatch(s, needle, needle);
    } else {
      MatchFirstAt(s, needle, needle, i);
    }
  }

  /** With no occurrence, `replaceAll` returns its input unchanged. */
  lemma NoOccurrenceNoChange(s: string, needle: string, replacement: string)
    requires |needle| > 0
    ensures Occurrences(s, needle) == 0 ==> ReplaceAll(s, needle, replacement) == s
  {
    SplitJoinIsRewrite(s, needle, replacement);
    if Occurrences(s, needle) == 0 {
      OccurrencesZeroIffFree(s, needle);
      NoMatch(s, needle, replacement);
    }
  }

  /** Resuming `indexOf` at `from` skips no occurrence the scan would count. */
  lemma IndexOfFromCounts(s: string, needle: string, from: nat)
    requires |needle| > 0 && from <= |s|
    ensures var j := IndexOf(s, needle, from);
      && (j == -1 ==> Occurrences(s[from..], needle) == 0)
      && (j != -1 ==> Occurrences(s[from..], needle) == 1 + Occurrences(s[j + |needle|..], needle))
  {
    var j := IndexOf(s, needle, from);
    var t := s[from..];
    if j == -1 {
      SuffixFreeBefore(s, needle, from, |t|);
      RewriteSkip(t, needle, needle, |t|);
      assert t[|t|..] == [];
    } else {
      SuffixFreeBefore(s, needle, from, j - from);
      RewriteSkip(t, needle, needle, j - from);
      assert t[j - from..] == s[j..];
      MatchAtIndex(s, needle, j);
    }
  }

  /** No match in `s` between `from` and `from + k` means none in the first `k` positions of `s[from..]`. */
  lemma SuffixFreeBefore(s: string, needle: string, from: nat, k: nat)
    requires from + k <= |s|
    requires forall i :: from <= i < from + k ==> !OccursAt(s, needle, i)
    ensures forall i :: 0 <= i < k ==> !OccursAt(s[from..], needle, i)
  {
    forall i | 0 <= i < k
      ensures !OccursAt(s[from..], needle, i)
    {
      ShiftedOccurrence(s, needle, from, i);
    }
  }

  /** A match at `j` is counted by the scan of `s[j..]`, which then resumes just past it. */
  lemma MatchAtIndex(s: string, needle: string, j: nat)
    requires |needle| > 0 && OccursAt(s, needle, j)
    ensures Occurrences(s[j..], needle) == 1 + Occurrences(s[j + |needle|..], needle)
  {
    var u := s[j..];
    assert u[..|needle|] == s[j..j + |needle|];
    MatchAtStart(u, needle, needle);
    assert u[|needle|..] == s[j + |needle|..];
  }

  /** An occurrence in a suffix is an occurrence in the whole text, shifted. */
  lemma ShiftedOccurrence(s: string, needle: string, from: nat, i: nat)
    requires from <= |s|
    ensures OccursAt(s[from..], needle, i) <==> OccursAt(s, needle, from + i)
  {
    if i + |needle| <= |s| - from {
      assert s[from..][i..i + |needle|] == s[from + i..from + i + |needle|];
    }
  }
}
