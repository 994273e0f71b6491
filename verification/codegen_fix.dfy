/**
  The post-codegen fix: count the occurrences of a guard the code generator
  emits unsafely, skip the run when there are none, and otherwise replace
  every one of them by its optional-chaining form
  (scripts/post-codegen-fix.js:5-6, 19-31). The file is a string parameter
  here; reading, writing and exiting the process are not modelled.
*/
module CodegenFix {
  import opened TextPatch

  const NEEDLE: string := "if (data.id)"
  const REPLACEMENT: string := "if (data?.id)"

  datatype Outcome =
    | Skipped
    | Rewritten(updated: string, occurrences: nat)

  /**
    The `indexOf` loop: find the first match, then resume the search just
    past it, counting each match found.
  */
  method CountOccurrences(content: string, needle: string) returns (occurrences: nat)
    requires |needle| > 0
    ensures occurrences == Occurrences(content, needle)
    ensures occurrences == |Split(content, needle)| - 1
    ensures occurrences == 0 <==> Free(content, needle)
  {
    occurrences := 0;
    var index := Search(content, needle, 0);
    while index != -1
      invariant index == -1 || index + |needle| <= |content|
      invariant index == -1 ==> occurrences == Occurrences(content, needle)
      invariant index != -1 ==>
        occurrences + 1 + Occurrences(content[index + |needle|..], needle) == Occurrences(content, needle)
      decreases if index == -1 then 0 else |content| + 1 - index
    {
      occurrences := occurrences + 1;
      index := Search(content, needle, index + |needle|);
    }
    CountMeansPieces(content, needle);
  }

  /**
    One `content.indexOf(needle, from)` call, and what it tells the loop:
    where the next match ends, and how many matches of `content[from..]`
    remain after it.
  */
  method Search(content: string, needle: string, from: nat) returns (j: int)
    requires |needle| > 0 && from <= |content|
    ensures j == -1 ==> Occurrences(content[from..], needle) == 0
    ensures j != -1 ==> OccursAt(content, needle, j) && forall k :: from <= k < j ==> !OccursAt(content, needle, k)
    ensures j != -1 ==>
      && from <= j && j + |needle| <= |content|
      && Occurrences(content[from..], needle) == 1 + Occurrences(content[j + |needle|..], needle)
  {
    j := IndexOf(content, needle, from);
    IndexOfFromCounts(content, needle, from);
  }

  /** The scan's count is one less than the number of split pieces, and zero exactly when the needle is absent. */
  lemma CountMeansPieces(content: string, needle: string)
    requires |needle| > 0
    ensures Occurrences(content, needle) == |Split(content, needle)| - 1
    ensures Occurrences(content, needle) == 0 <==> Free(content, needle)
  {
    SplitJoinIsRewrite(content, needle, needle);
    OccurrencesZeroIffFree(content, needle);
  }

  /** One run of the script on the file's content. */
  method Patch(content: string) returns (outcome: Outcome)
    ensures outcome.Skipped? <==> Free(content, NEEDLE)
    ensures outcome.Rewritten? ==>
      && outcome.updated == ReplaceAll(content, NEEDLE, REPLACEMENT)
      && outcome.updated == Rewrite(content, NEEDLE, REPLACEMENT)
      && outcome.occurrences == Occurrences(content, NEEDLE) > 0
      && |outcome.updated| == |content| + outcome.occurrences
      && Free(outcome.updated, NEEDLE)
  {
    var occurrences := CountOccurrences(content, NEEDLE);
    if occurrences == 0 {
      return Skipped;
    }
    var updated := ReplaceAll(content, NEEDLE, REPLACEMENT);
    SplitJoinIsRewrite(content, NEEDLE, REPLACEMENT);
    RewriteLength(content, NEEDLE, REPLACEMENT);
    RewriteRemovesNeedle(content);
    outcome := Rewritten(updated, occurrences);
  }

  /** No proper suffix of the needle can start the replacement: "if" appears in neither elsewhere. */
  predicate NoIfStart(w: string) {
    forall j :: 0 <= j < |w| && w[j] == 'i' ==> j + 1 < |w| && w[j + 1] != 'f'
  }

  /**
    If the rewritten text starts with a string that cannot begin a
    replacement anywhere, the original text started with it too: the scan
    copied those characters one by one.
  */
  lemma {:induction false} RewriteKeepsPrefix(u: string, w: string)
    requires NoIfStart(w)
    ensures StartsWith(Rewrite(u, NEEDLE, REPLACEMENT), w) ==> StartsWith(u, w)
    decreases |u|
  {
    var t := Rewrite(u, NEEDLE, REPLACEMENT);
    if |w| == 0 {
    } else if |u| < |NEEDLE| {
      assert t == u;
    } else if u[..|NEEDLE|] == NEEDLE {
      assert t == REPLACEMENT + Rewrite(u[|NEEDLE|..], NEEDLE, REPLACEMENT);
      assert t[0] == 'i' && t[1] == 'f';
      LeadingChars(t, w);
    } else {
      var rest := Rewrite(u[1..], NEEDLE, REPLACEMENT);
      assert t == [u[0]] + rest;
      NoIfStartTail(w);
      RewriteKeepsPrefix(u[1..], w[1..]);
      ConsPrefix(u[0], rest, w);
      ConsPrefix(u[0], u[1..], w);
      assert [u[0]] + u[1..] == u;
    }
  }

  lemma NoIfStartTail(w: string)
    requires |w| > 0 && NoIfStart(w)
    ensures NoIfStart(w[1..])
  {
    forall j | 0 <= j < |w| - 1 && w[1..][j] == 'i'
      ensures j + 1 < |w| - 1 && w[1..][j + 1] != 'f'
    {
      assert w[j + 1] == 'i';
    }
  }

  /** A text that starts with `w` agrees with it on its first two characters. */
  lemma LeadingChars(t: string, w: string)
    ensures StartsWith(t, w) && |w| > 0 ==> t[0] == w[0]
    ensures StartsWith(t, w) && |w| > 1 ==> t[1] == w[1]
  {
    if StartsWith(t, w) && |w| > 0 {
      assert t[..|w|][0] == t[0];
      if |w| > 1 {
        assert t[..|w|][1] == t[1];
      }
    }
  }

  /** The replacement leaves no needle at position `i` of the output. */
  lemma {:induction false} NoNeedleAt(s: string, i: int)
    ensures !OccursAt(Rewrite(s, NEEDLE, REPLACEMENT), NEEDLE, i)
    decreases |s|
  {
    var t := Rewrite(s, NEEDLE, REPLACEMENT);
    if |s| < |NEEDLE| {
      assert t == s;
    } else if s[..|NEEDLE|] == NEEDLE {
      var rest := s[|NEEDLE|..];
      assert t == REPLACEMENT + Rewrite(rest, NEEDLE, REPLACEMENT);
      if i >= |REPLACEMENT| {
        NoNeedleAt(rest, i - |REPLACEMENT|);
        ShiftedOccurrence(t, NEEDLE, |REPLACEMENT|, i - |REPLACEMENT|);
        assert t[|REPLACEMENT|..] == Rewrite(rest, NEEDLE, REPLACEMENT);
      } else if 0 <= i {
        NoNeedleInReplacement(t, i);
      }
    } else {
      var rest := Rewrite(s[1..], NEEDLE, REPLACEMENT);
      assert t == [s[0]] + rest;
      if i >= 1 {
        NoNeedleAt(s[1..], i - 1);
        ShiftedOccurrence(t, NEEDLE, 1, i - 1);
        assert t[1..] == rest;
      } else if i == 0 {
        NoNeedleAtCopiedHead(s);
      }
    }
  }

  /** A needle cannot start inside a replacement that begins the text: its "if" sits only at the start, before the '?'. */
  lemma NoNeedleInReplacement(t: string, i: nat)
    requires StartsWith(t, REPLACEMENT) && i < |REPLACEMENT|
    ensures !OccursAt(t, NEEDLE, i)
  {
    assert forall k :: 0 <= k < |REPLACEMENT| ==> t[k] == REPLACEMENT[k] by {
      forall k | 0 <= k < |REPLACEMENT|
        ensures t[k] == REPLACEMENT[k]
      {
        assert t[..|REPLACEMENT|][k] == t[k];
      }
    }
    if i + |NEEDLE| <= |t| {
      var u := t[i..i + |NEEDLE|];
      assert u[0] == t[i] && u[1] == t[i + 1];
      if i == 0 {
        assert u[8] == t[8] == '?';
      }
    }
  }

  /** When the text does not start with the needle, its copied first character cannot start one in the output. */
  lemma NoNeedleAtCopiedHead(s: string)
    requires |s| >= |NEEDLE| && s[..|NEEDLE|] != NEEDLE
    ensures !OccursAt(Rewrite(s, NEEDLE, REPLACEMENT), NEEDLE, 0)
  {
    var rest := Rewrite(s[1..], NEEDLE, REPLACEMENT);
    var w := NEEDLE[1..];
    NeedleTailNoIfStart();
    RewriteKeepsPrefix(s[1..], w);
    ConsPrefix(s[0], rest, NEEDLE);
    ConsPrefix(s[0], s[1..], NEEDLE);
    assert [s[0]] + s[1..] == s;
    assert !StartsWith(s, NEEDLE);
    assert !StartsWith([s[0]] + rest, NEEDLE);
    assert Rewrite(s, NEEDLE, REPLACEMENT) == [s[0]] + rest;
  }

  lemma NeedleTailNoIfStart()
    ensures NoIfStart(NEEDLE[1..])
  {
  }

  /** The replacement never recreates the needle. */
  lemma RewriteRemovesNeedle(s: string)
    ensures Free(Rewrite(s, NEEDLE, REPLACEMENT), NEEDLE)
  {
    var t := Rewrite(s, NEEDLE, REPLACEMENT);
    forall i | 0 <= i <= |t|
      ensures !OccursAt(t, NEEDLE, i)
    {
      NoNeedleAt(s, i);
    }
  }

  /** A second run of the script finds nothing to do and changes nothing. */
  lemma SecondRunIsNoOp(content: string)
    ensures var updated := ReplaceAll(content, NEEDLE, REPLACEMENT);
      && Occurrences(updated, NEEDLE) == 0
      && ReplaceAll(updated, NEEDLE, REPLACEMENT) == updated
  {
    var updated := ReplaceAll(content, NEEDLE, REPLACEMENT);
    SplitJoinIsRewrite(content, NEEDLE, REPLACEMENT);
    RewriteRemovesNeedle(content);
    OccurrencesZeroIffFree(updated, NEEDLE);
    NoOccurrenceNoChange(updated, NEEDLE, REPLACEMENT);
  }
}
