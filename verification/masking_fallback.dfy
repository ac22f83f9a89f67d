/**
 * Structural facts about one `re.sub` pass and the rule fold, and the
 * guarantee the numeric fallback gives because it is the table's last rule.
 */
module MaskingFold {
  import opened Wrappers
  import opened Text
  import opened Masking

  /** One step of a pass where the rule finds nothing: the character is copied. */
  lemma CopyStep(r: SimpleRule, s: string, i: nat)
    requires i < |s|
    requires MatchAt(r, s, i).None?
    ensures PassFrom(r, s, i) == [s[i]] + PassFrom(r, s, i + 1)
  {
  }

  /** One step of a pass where the rule matches: the replacement, then the rest after the match. */
  lemma ReplaceStep(r: SimpleRule, s: string, i: nat)
    requires i < |s|
    requires MatchAt(r, s, i).Some?
    ensures PassFrom(r, s, i) == MatchAt(r, s, i).value.text + PassFrom(r, s, MatchAt(r, s, i).value.end)
  {
  }

  /** The induction step of `CopyRange`, kept apart so that its proof stays small. */
  lemma CopyRangeStep(r: SimpleRule, s: string, i: nat, j: nat)
    requires i < j <= |s| && MatchAt(r, s, i).None?
    requires PassFrom(r, s, i + 1) == s[i + 1..j] + PassFrom(r, s, j)
    ensures PassFrom(r, s, i) == s[i..j] + PassFrom(r, s, j)
  {
    CopyStep(r, s, i);
    SliceCons(s, i, j, PassFrom(r, s, j));
  }

  /** Where a rule finds nothing, the pass copies the input character for character. */
  lemma {:induction false} CopyRange(r: SimpleRule, s: string, i: nat, j: nat)
    requires i <= j <= |s|
    requires forall p :: i <= p < j ==> MatchAt(r, s, p).None?
    ensures PassFrom(r, s, i) == s[i..j] + PassFrom(r, s, j)
    decreases j - i
  {
    if i < j {
      CopyRange(r, s, i + 1, j);
      CopyRangeStep(r, s, i, j);
    } else {
      assert s[i..j] == [];
    }
  }

  /** A rule that matches nowhere leaves the text unchanged. */
  lemma PassIdentity(r: SimpleRule, s: string)
    requires forall p :: 0 <= p < |s| ==> MatchAt(r, s, p).None?
    ensures Pass(r, s) == s
  {
    CopyRange(r, s, 0, |s|);
  }

  /** The fold over a concatenated table is the fold over the second part of the first part's result. */
  lemma {:induction false} ApplyRulesSplit(a: seq<Rule>, b: seq<Rule>, s: string, other: OpaqueSub)
    ensures ApplyRules(a + b, s, other) == ApplyRules(b, ApplyRules(a, s, other), other)
    decreases |a|
  {
    if a == [] {
      assert a + b == b;
    } else {
      assert (a + b)[1..] == a[1..] + b;
      ApplyRulesSplit(a[1..], b, ApplyRule(a[0], s, other), other);
    }
  }

  /** A run of rules each of which leaves the text alone leaves it alone. */
  lemma {:induction false} FoldFixed(rules: seq<Rule>, s: string, other: OpaqueSub)
    requires forall k :: 0 <= k < |rules| ==> ApplyRule(rules[k], s, other) == s
    ensures ApplyRules(rules, s, other) == s
    decreases |rules|
  {
    if rules != [] {
      FoldFixed(rules[1..], s, other);
    }
  }

  // ---------------------------------------------------------------
  // The numeric fallback leaves no standalone run of five or more digits
  // ---------------------------------------------------------------

  /** A digit run is measured the same inside a longer text. */
  lemma RunLenShift(x: string, y: string, b: nat)
    requires b <= |y|
    ensures RunLen(x + y, |x| + b) == RunLen(y, b)
  {
    var n := RunLen(y, b);
    var u := x + y;
    RunLenDigits(y, b);
    assert u[|x| + b..|x| + b + n] == y[b..b + n];
    RunLenExact(u, |x| + b, |x| + b + n);
  }

  /** The fallback's match at a position of `y` inside `x + y`, in terms of `y` and the character before. */
  lemma NumAtIn(x: string, y: string, b: nat)
    requires b <= |y|
    ensures NumAt(x + y, |x| + b).Some? <==>
              WordStart(x + y, |x| + b) && RunLen(y, b) >= 5 && WordEnd(y, b + RunLen(y, b))
  {
    RunLenShift(x, y, b);
    var n := RunLen(y, b);
    assert WordEnd(x + y, |x| + b + n) == WordEnd(y, b + n);
  }

  /** The character before index `i`, as a string of length 0 or 1. */
  function Before(s: string, i: nat): (p: string)
    requires i <= |s|
    ensures |p| == (if i == 0 then 0 else 1)
  {
    if i == 0 then [] else [s[i - 1]]
  }

  predicate NoNumFrom(u: string, start: nat) {
    forall a :: start <= a < |u| ==> NumAt(u, a).None?
  }

  /** Where the fallback finds nothing at `i`, the pass copies the digit run there and the character after it. */
  lemma CopyRun(s: string, i: nat) returns (m: nat)
    requires i < |s|
    requires NumAt(s, i).None?
    ensures i < m <= |s|
    ensures PassFrom(NumFallback, s, i) == s[i..m] + PassFrom(NumFallback, s, m)
    ensures m == |s| || m == i + RunLen(s, i) + 1
    ensures m > i + RunLen(s, i) || m == |s|
  {
    var n := RunLen(s, i);
    m := if i + n < |s| then i + n + 1 else |s|;
    forall p | i <= p < m
      ensures MatchAt(NumFallback, s, p).None?
    {
      if i < p {
        assert RunLen(s, p) == 0 || !WordStart(s, p);
      }
    }
    CopyRange(NumFallback, s, i, m);
  }

  /** Two texts that agree past the end of the first one's leading digit run measure it alike. */
  lemma SharedHead(y: string, w: string, k: nat)
    requires k <= |y| && k <= |w| && y[..k] == w[..k]
    requires RunLen(w, 0) < k
    ensures RunLen(y, 0) == RunLen(w, 0)
    ensures WordEnd(y, RunLen(w, 0)) == WordEnd(w, RunLen(w, 0))
  {
    var n := RunLen(w, 0);
    RunLenDigits(w, 0);
    assert y[0..n] == y[..k][0..n] == w[..k][0..n] == w[0..n];
    assert y[n] == y[..k][n] == w[..k][n] == w[n];
    RunLenExact(y, 0, n);
  }

  /** The first character the pass copies cannot start a fallback match in the output either. */
  lemma FirstCopyClean(s: string, i: nat)
    requires i < |s|
    requires NumAt(s, i).None?
    ensures NumAt(Before(s, i) + PassFrom(NumFallback, s, i), |Before(s, i)|).None?
  {
    var m := CopyRun(s, i);
    FirstCopyCleanAt(s, i, m, s[i..m] + PassFrom(NumFallback, s, m));
  }

  lemma FirstCopyCleanAt(s: string, i: nat, m: nat, y: string)
    requires i < m <= |s| && NumAt(s, i).None?
    requires y == s[i..m] + PassFrom(NumFallback, s, m)
    requires m == |s| || m == i + RunLen(s, i) + 1
    ensures NumAt(Before(s, i) + y, |Before(s, i)|).None?
  {
    var pre := Before(s, i);
    var w := s[i..];
    NumAtSuffix(s, i, w);
    CopiedHead(s, i, m, y, w);
    SameStart(s, i, y);
    NumAtIn(pre, y, 0);
  }

  /** The fallback's match at `i`, read off the suffix from `i`. */
  lemma NumAtSuffix(s: string, i: nat, w: string)
    requires i <= |s| && w == s[i..]
    ensures RunLen(w, 0) == RunLen(s, i)
    ensures NumAt(s, i).Some? <==> WordStart(s, i) && RunLen(w, 0) >= 5 && WordEnd(w, RunLen(w, 0))
  {
    assert s[..i] + w == s;
    RunLenShift(s[..i], w, 0);
    NumAtIn(s[..i], w, 0);
  }

  /** The copied text agrees with the input on its leading digit run and the character after it. */
  lemma CopiedHead(s: string, i: nat, m: nat, y: string, w: string)
    requires i < m <= |s| && w == s[i..] && RunLen(w, 0) == RunLen(s, i)
    requires y == s[i..m] + PassFrom(NumFallback, s, m)
    requires m == |s| || m == i + RunLen(s, i) + 1
    ensures RunLen(y, 0) == RunLen(w, 0) && WordEnd(y, RunLen(w, 0)) == WordEnd(w, RunLen(w, 0))
  {
    if m == |s| {
      assert PassFrom(NumFallback, s, m) == [];
      assert y == w;
    } else {
      assert y[..m - i] == s[i..m] == w[..m - i];
      SharedHead(y, w, m - i);
    }
  }

  /** Only the character before `i` decides whether a word starts there. */
  lemma SameStart(s: string, i: nat, y: string)
    requires i <= |s|
    ensures WordStart(Before(s, i) + y, |Before(s, i)|) == WordStart(s, i)
  {
    if i > 0 {
      assert (Before(s, i) + y)[|Before(s, i)| - 1] == s[i - 1];
    }
  }

  /** A position of `y` sees the same match whatever precedes `y`, provided the character just before it agrees. */
  lemma SameTail(x: string, x': string, y: string, b: nat)
    requires b < |y|
    requires b > 0 || (|x| > 0 && |x'| > 0 && x[|x| - 1] == x'[|x'| - 1])
    ensures NumAt(x + y, |x| + b).Some? == NumAt(x' + y, |x'| + b).Some?
  {
    NumAtIn(x, y, b);
    NumAtIn(x', y, b);
    if b > 0 {
      assert (x + y)[|x| + b - 1] == y[b - 1] == (x' + y)[|x'| + b - 1];
    } else {
      assert (x + y)[|x| - 1] == x[|x| - 1] == x'[|x'| - 1] == (x' + y)[|x'| - 1];
    }
  }

  /**
   * Text free of digits from `start` on, followed by a tail that starts with
   * no digit and is clean after some other text, is clean from `start` on.
   */
  lemma CleanBehindNonDigits(x: string, y: string, x': string, start: nat)
    requires start <= |x|
    requires forall a :: start <= a < |x| ==> !IsDigit(x[a])
    requires y == [] || !IsDigit(y[0])
    requires NoNumFrom(x' + y, |x'|)
    ensures NoNumFrom(x + y, start)
  {
    var u := x + y;
    forall a | start <= a < |u|
      ensures NumAt(u, a).None?
    {
      if a < |x| {
        assert !IsDigit(u[a]);
      } else if a == |x| {
        assert !IsDigit(u[a]);
      } else {
        SameTail(x, x', y, a - |x|);
      }
    }
  }

  /** The character that ends a fallback match is not a digit, and the pass copies it first. */
  lemma AfterHitNotDigit(s: string, e: nat)
    requires 0 < e <= |s| && IsDigit(s[e - 1])
    requires e == |s| || !IsDigit(s[e])
    ensures var y := PassFrom(NumFallback, s, e); y == [] || !IsDigit(y[0])
  {
    if e < |s| {
      assert NumAt(s, e).None?;
      var m := CopyRun(s, e);
      assert PassFrom(NumFallback, s, e)[0] == s[e];
    }
  }

  lemma CleanAfterHit(s: string, i: nat)
    requires i < |s|
    requires NumAt(s, i).Some?
    requires NumAt(s, i).value.end <= |s|
    requires NoNumFrom(Before(s, NumAt(s, i).value.end) + PassFrom(NumFallback, s, NumAt(s, i).value.end),
                       |Before(s, NumAt(s, i).value.end)|)
    ensures NoNumFrom(Before(s, i) + PassFrom(NumFallback, s, i), |Before(s, i)|)
  {
    CleanAfterHitAt(s, i, NumAt(s, i).value.end, PassFrom(NumFallback, s, NumAt(s, i).value.end));
  }

  lemma CleanAfterHitAt(s: string, i: nat, e: nat, y: string)
    requires i < |s| && NumAt(s, i).Some? && e == NumAt(s, i).value.end <= |s|
    requires y == PassFrom(NumFallback, s, e)
    requires NoNumFrom(Before(s, e) + y, |Before(s, e)|)
    ensures NoNumFrom(Before(s, i) + PassFrom(NumFallback, s, i), |Before(s, i)|)
  {
    var pre := Before(s, i);
    assert PassFrom(NumFallback, s, i) == "[NUM]" + y by {
      ReplaceStep(NumFallback, s, i);
    }
    assert pre + PassFrom(NumFallback, s, i) == (pre + "[NUM]") + y by {
      ConcatAssoc(pre, "[NUM]", y);
    }
    assert y == [] || !IsDigit(y[0]) by {
      RunLenDigits(s, i);
      AfterHitNotDigit(s, e);
    }
    CleanBehindNonDigits(pre + "[NUM]", y, Before(s, e), |pre|);
  }

  lemma CleanAfterCopy(s: string, i: nat)
    requires i < |s|
    requires NumAt(s, i).None?
    requires NoNumFrom(Before(s, i + 1) + PassFrom(NumFallback, s, i + 1), |Before(s, i + 1)|)
    ensures NoNumFrom(Before(s, i) + PassFrom(NumFallback, s, i), |Before(s, i)|)
  {
    var pre := Before(s, i);
    var y := PassFrom(NumFallback, s, i + 1);
    var x := pre + [s[i]];
    assert pre + PassFrom(NumFallback, s, i) == x + y by {
      CopyStep(NumFallback, s, i);
      ConcatAssoc(pre, [s[i]], y);
    }
    assert NumAt(x + y, |pre|).None? by {
      FirstCopyClean(s, i);
    }
    CleanBehindSameChar(x, y, Before(s, i + 1));
  }

  /** A tail clean after some text stays clean after any text that ends in the same character. */
  lemma CleanBehindSameChar(x: string, y: string, x': string)
    requires |x| > 0 && |x'| > 0 && x[|x| - 1] == x'[|x'| - 1]
    requires NoNumFrom(x' + y, |x'|)
    ensures NoNumFrom(x + y, |x|)
  {
    forall a | |x| <= a < |x + y|
      ensures NumAt(x + y, a).None?
    {
      SameTail(x, x', y, a - |x|);
    }
  }

  /** Nothing the fallback pass emits from index `i` on is a fallback match. */
  lemma {:induction false} NumPassClean(s: string, i: nat)
    requires i <= |s|
    ensures NoNumFrom(Before(s, i) + PassFrom(NumFallback, s, i), |Before(s, i)|)
    decreases |s| - i
  {
    if i < |s| {
      match NumAt(s, i)
      case Some(h) =>
        NumPassClean(s, h.end);
        CleanAfterHit(s, i);
      case None =>
        NumPassClean(s, i + 1);
        CleanAfterCopy(s, i);
    }
  }

  /** The fallback matches exactly the standalone runs of five or more digits. */
  lemma NumAtSpec(s: string, i: nat)
    requires i <= |s|
    ensures forall e :: i <= e <= |s| ==>
              (NumAt(s, i) == Some(Hit(e, "[NUM]")) <==> e - i >= 5 && StandaloneRun(s, i, e))
  {
    forall e | i <= e <= |s|
      ensures NumAt(s, i) == Some(Hit(e, "[NUM]")) <==> e - i >= 5 && StandaloneRun(s, i, e)
    {
      if e - i >= 5 && StandaloneRun(s, i, e) {
        StandaloneRunLen(s, i, e);
      }
      if NumAt(s, i) == Some(Hit(e, "[NUM]")) {
        RunLenDigits(s, i);
      }
    }
  }

  /** After the fallback pass no standalone run of five or more digits is left. */
  lemma NumFallbackLeavesNoLongRun(s: string)
    ensures var t := Pass(NumFallback, s);
            forall i, e :: 0 <= i <= e <= |t| && e - i >= 5 ==> !StandaloneRun(t, i, e)
  {
    var t := Pass(NumFallback, s);
    NumPassClean(s, 0);
    assert Before(s, 0) + t == t;
    forall i, e | 0 <= i <= e <= |t| && e - i >= 5
      ensures !StandaloneRun(t, i, e)
    {
      NumAtSpec(t, i);
    }
  }

  /** Unlike the date rule, the fallback is idempotent. */
  lemma NumFallbackIdempotent(s: string)
    ensures Pass(NumFallback, Pass(NumFallback, s)) == Pass(NumFallback, s)
  {
    var t := Pass(NumFallback, s);
    NumPassClean(s, 0);
    assert Before(s, 0) + t == t;
    PassIdentity(NumFallback, t);
  }

  /**
   * Whatever the entity recogniser and the opaque rules do, the masked
   * transcript contains no standalone run of five or more digits, because
   * the fallback is the last rule of the table.
   */
  lemma MaskLeavesNoLongRun(text: string, presidio: string -> string, other: OpaqueSub)
    ensures var t := MaskTranscript(text, presidio, other);
            forall i, e :: 0 <= i <= e <= |t| && e - i >= 5 ==> !StandaloneRun(t, i, e)
  {
    var init := RuleTable[..16];
    assert RuleTable == init + [Simple(NumFallback)];
    ApplyRulesSplit(init, [Simple(NumFallback)], presidio(text), other);
    var mid := ApplyRules(init, presidio(text), other);
    assert ApplyRules([Simple(NumFallback)], mid, other) == Pass(NumFallback, mid);
    NumFallbackLeavesNoLongRun(mid);
  }
}
