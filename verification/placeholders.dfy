/**
 * `normalize_placeholders`: six literal replace-all steps, in a fixed
 * order, that turn masking placeholders into plain words.
 */
module Placeholders {
  import opened Text

  /** No character of `rep` appears in `q`. */
  predicate Disjoint(rep: string, q: string) {
    forall c :: c in rep ==> c !in q
  }

  lemma OccursShift(s: string, d: nat, q: string)
    requires d <= |s|
    requires Occurs(s[d..], q)
    ensures Occurs(s, q)
  {
    var i: nat :| i <= |s[d..]| && OccursAt(s[d..], i, q);
    assert s[d..][i..i + |q|] == s[d + i..d + i + |q|];
    assert OccursAt(s, d + i, q);
  }

  /** Python's `s.replace(pat, rep)`: non-overlapping occurrences, found left to right. */
  function ReplaceAll(s: string, pat: string, rep: string): (r: string)
    requires pat != []
    ensures !Occurs(s, pat) ==> r == s
    decreases |s|
  {
    if |s| < |pat| then s
    else if s[..|pat|] == pat then
      assert OccursAt(s, 0, pat);
      rep + ReplaceAll(s[|pat|..], pat, rep)
    else
      OccursInTail(s, pat);
      [s[0]] + ReplaceAll(s[1..], pat, rep)
  }

  lemma OccursInTail(s: string, q: string)
    requires s != []
    ensures Occurs(s[1..], q) ==> Occurs(s, q)
  {
    if Occurs(s[1..], q) {
      OccursShift(s, 1, q);
    }
  }

  /**
   * The leftmost occurrence of `pat` is replaced and the search resumes
   * after it: `a` holds no occurrence, not even one that would run into `pat`.
   */
  lemma {:induction false} ReplaceLeftmost(a: string, pat: string, rep: string, b: string)
    requires pat != []
    requires !Occurs(a + pat[..|pat| - 1], pat)
    ensures ReplaceAll(a + pat + b, pat, rep) == a + rep + ReplaceAll(b, pat, rep)
    decreases |a|
  {
    if a == [] {
      LeftmostAtStart(pat, rep, b);
    } else {
      FreeTail(a, pat);
      ReplaceLeftmost(a[1..], pat, rep, b);
      LeftmostCopy(a, pat, rep, b);
    }
  }

  lemma LeftmostAtStart(pat: string, rep: string, b: string)
    requires pat != []
    ensures ReplaceAll([] + pat + b, pat, rep) == [] + rep + ReplaceAll(b, pat, rep)
  {
    var s := [] + pat + b;
    assert s[..|pat|] == pat && s[|pat|..] == b;
    ReplaceHead(s, pat, rep);
  }

  /** The step of `ReplaceLeftmost`: the first character of `a` is copied. */
  lemma LeftmostCopy(a: string, pat: string, rep: string, b: string)
    requires pat != [] && a != []
    requires !Occurs(a + pat[..|pat| - 1], pat)
    requires ReplaceAll(a[1..] + pat + b, pat, rep) == a[1..] + rep + ReplaceAll(b, pat, rep)
    ensures ReplaceAll(a + pat + b, pat, rep) == a + rep + ReplaceAll(b, pat, rep)
  {
    var s := a + pat + b;
    NotAtStart(a, pat, b, s);
    HeadTail(a, pat, b, s);
    ReplaceCopy(s, pat, rep);
    var rb := ReplaceAll(b, pat, rep);
    ConsConcat(a, a[1..] + rep + rb, rep, rb);
  }

  lemma HeadTail(a: string, pat: string, b: string, s: string)
    requires a != [] && s == a + pat + b
    ensures s[0] == a[0] && s[1..] == a[1..] + pat + b
  {
    assert s[1..] == a[1..] + pat + b;
  }

  lemma ConsConcat(a: string, y: string, rep: string, rb: string)
    requires a != [] && y == a[1..] + rep + rb
    ensures [a[0]] + y == a + rep + rb
  {
    assert a == [a[0]] + a[1..];
  }

  /** A text free of `pat` up to the last character of `pat` does not start with `pat`. */
  lemma NotAtStart(a: string, pat: string, b: string, s: string)
    requires pat != [] && a != [] && s == a + pat + b
    requires !Occurs(a + pat[..|pat| - 1], pat)
    ensures |s| >= |pat| && s[..|pat|] != pat
  {
    var t := a + pat[..|pat| - 1];
    assert |t| >= |pat|;
    assert t[..|pat|] == s[..|pat|];
    if s[..|pat|] == pat {
      assert OccursAt(t, 0, pat);
    }
  }

  lemma FreeTail(a: string, pat: string)
    requires pat != [] && a != []
    requires !Occurs(a + pat[..|pat| - 1], pat)
    ensures !Occurs(a[1..] + pat[..|pat| - 1], pat)
  {
    var t := a + pat[..|pat| - 1];
    assert t[1..] == a[1..] + pat[..|pat| - 1];
    if Occurs(t[1..], pat) {
      OccursShift(t, 1, pat);
    }
  }

  /**
   * Every text that contains `pat` has a leftmost occurrence, at `i`, with
   * no occurrence in the text before its last character: so, with
   * `a := s[..i]`, `ReplaceLeftmost` and the identity on absent patterns
   * together determine `ReplaceAll` on every input.
   */
  lemma LeftmostSplit(s: string, pat: string)
    requires pat != [] && Occurs(s, pat)
    ensures exists i: nat :: OccursAt(s, i, pat) && !Occurs(s[..i + |pat| - 1], pat)
  {
    var j: nat :| j <= |s| && OccursAt(s, j, pat);
    var i := FirstAt(s, pat, j);
    PrefixFree(s, pat, i);
  }

  lemma {:induction false} FirstAt(s: string, pat: string, j: nat) returns (i: nat)
    requires OccursAt(s, j, pat)
    ensures i <= j && OccursAt(s, i, pat)
    ensures forall k: nat :: k < i ==> !OccursAt(s, k, pat)
    decreases j
  {
    if exists k: nat :: k < j && OccursAt(s, k, pat) {
      var k: nat :| k < j && OccursAt(s, k, pat);
      i := FirstAt(s, pat, k);
    } else {
      i := j;
    }
  }

  lemma PrefixFree(s: string, pat: string, i: nat)
    requires pat != [] && OccursAt(s, i, pat)
    requires forall k: nat :: k < i ==> !OccursAt(s, k, pat)
    ensures !Occurs(s[..i + |pat| - 1], pat)
  {
    var t := s[..i + |pat| - 1];
    forall k: nat | k <= |t|
      ensures !OccursAt(t, k, pat)
    {
      if k + |pat| <= |t| {
        assert k < i;
        assert !OccursAt(s, k, pat);
        assert t[k..k + |pat|] == s[k..k + |pat|];
      }
    }
  }

  /**
   * The output agrees with the input up to the first character that
   * came from a replacement.
   */
  lemma {:induction false} CopiedPrefix(t: string, pat: string, rep: string, j: nat)
    requires pat != [] && rep != []
    requires j <= |ReplaceAll(t, pat, rep)|
    requires forall k :: 0 <= k < j ==> ReplaceAll(t, pat, rep)[k] !in rep
    ensures j <= |t| && ReplaceAll(t, pat, rep)[..j] == t[..j]
    decreases |t|
  {
    if j > 0 && |t| >= |pat| {
      var r := ReplaceAll(t, pat, rep);
      var r' := ReplaceAll(t[1..], pat, rep);
      assert r[0] !in rep && rep[0] in rep;
      assert r == [t[0]] + r';
      forall k | 0 <= k < j - 1
        ensures r'[k] !in rep
      {
        assert r'[k] == r[k + 1];
      }
      CopiedPrefix(t[1..], pat, rep, j - 1);
      assert r[..j] == [t[0]] + r'[..j - 1];
    }
  }

  /** The unfolding of `ReplaceAll` at a text that starts with `pat`. */
  lemma ReplaceHead(s: string, pat: string, rep: string)
    requires pat != [] && |s| >= |pat| && s[..|pat|] == pat
    ensures ReplaceAll(s, pat, rep) == rep + ReplaceAll(s[|pat|..], pat, rep)
  {
  }

  /** The unfolding of `ReplaceAll` at a text that does not start with `pat`. */
  lemma ReplaceCopy(s: string, pat: string, rep: string)
    requires pat != [] && |s| >= |pat| && s[..|pat|] != pat
    ensures ReplaceAll(s, pat, rep) == [s[0]] + ReplaceAll(s[1..], pat, rep)
  {
  }

  /** An occurrence of `q` after a replacement text it shares no character with lies in what follows. */
  lemma TraceAfterHit(rep: string, q: string, i: nat, r: string, r': string)
    requires rep != [] && q != [] && Disjoint(rep, q)
    requires r == rep + r' && OccursAt(r, i, q)
    ensures i >= |rep| && OccursAt(r', i - |rep|, q)
  {
    assert r[i] == r[i..i + |q|][0] == q[0] && q[0] in q;
    assert r[i] !in rep;
    assert r'[i - |rep|..i - |rep| + |q|] == r[i..i + |q|];
  }

  /** An occurrence of `q` past a first copied character lies in what follows. */
  lemma TraceAfterCopy(c: char, q: string, i: nat, r: string, r': string)
    requires r == [c] + r' && OccursAt(r, i, q) && i > 0
    ensures OccursAt(r', i - 1, q)
  {
    assert r'[i - 1..i - 1 + |q|] == r[i..i + |q|];
  }

  /** An occurrence of `q` in the output made of copied characters is an occurrence in the input. */
  lemma {:induction false} TraceOccurrence(s: string, pat: string, rep: string, q: string, i: nat)
    requires pat != [] && rep != [] && q != []
    requires Disjoint(rep, q)
    requires OccursAt(ReplaceAll(s, pat, rep), i, q)
    ensures Occurs(s, q)
    ensures i == 0 && |s| >= |pat| ==> s[..|pat|] != pat ==> OccursAt(s, 0, q)
    decreases |s|
  {
    if |s| < |pat| {
      assert OccursAt(s, i, q);
    } else if s[..|pat|] == pat {
      ReplaceHead(s, pat, rep);
      TraceAfterHit(rep, q, i, ReplaceAll(s, pat, rep), ReplaceAll(s[|pat|..], pat, rep));
      TraceOccurrence(s[|pat|..], pat, rep, q, i - |rep|);
      OccursShift(s, |pat|, q);
    } else if i == 0 {
      TraceAtStart(s, pat, rep, q);
    } else {
      ReplaceCopy(s, pat, rep);
      TraceAfterCopy(s[0], q, i, ReplaceAll(s, pat, rep), ReplaceAll(s[1..], pat, rep));
      TraceOccurrence(s[1..], pat, rep, q, i - 1);
      OccursShift(s, 1, q);
    }
  }

  /** An occurrence at the very start of the output, made of copied characters, is one of the input. */
  lemma TraceAtStart(s: string, pat: string, rep: string, q: string)
    requires pat != [] && rep != [] && q != []
    requires Disjoint(rep, q)
    requires OccursAt(ReplaceAll(s, pat, rep), 0, q)
    ensures OccursAt(s, 0, q)
  {
    var r := ReplaceAll(s, pat, rep);
    forall k | 0 <= k < |q|
      ensures r[k] !in rep
    {
      assert r[k] == q[k];
    }
    CopiedPrefix(s, pat, rep, |q|);
  }

  /** A replace-all step leaves no occurrence of `q` that the input did not have. */
  lemma ReplaceKeepsAbsent(s: string, pat: string, rep: string, q: string)
    requires pat != [] && rep != [] && q != []
    requires Disjoint(rep, q)
    ensures Occurs(ReplaceAll(s, pat, rep), q) ==> Occurs(s, q)
  {
    if Occurs(ReplaceAll(s, pat, rep), q) {
      var i: nat :| i <= |ReplaceAll(s, pat, rep)| && OccursAt(ReplaceAll(s, pat, rep), i, q);
      TraceOccurrence(s, pat, rep, q, i);
    }
  }

  /** The first `|pat|` output characters differ from `pat` if any of them came from a replacement. */
  lemma RepCharBreaks(r: string, pat: string, rep: string, i: nat, k: nat)
    requires Disjoint(rep, pat)
    requires i <= k < i + |pat| <= |r| && r[k] in rep
    ensures !OccursAt(r, i, pat)
  {
    assert r[k] !in pat;
    assert r[i..i + |pat|][k - i] == r[k];
  }

  /** No occurrence of `pat` survives its own replace-all step when `rep` shares no character with it. */
  lemma {:induction false} NoneLeftAt(s: string, pat: string, rep: string, i: nat)
    requires pat != [] && rep != []
    requires Disjoint(rep, pat)
    ensures !OccursAt(ReplaceAll(s, pat, rep), i, pat)
    decreases |s|
  {
    if |s| >= |pat| {
      if s[..|pat|] == pat {
        if i >= |rep| {
          NoneLeftAt(s[|pat|..], pat, rep, i - |rep|);
        }
        ReplaceHead(s, pat, rep);
        NoneLeftAfterHit(pat, rep, i, ReplaceAll(s, pat, rep), ReplaceAll(s[|pat|..], pat, rep));
      } else if i > 0 {
        NoneLeftAt(s[1..], pat, rep, i - 1);
        ReplaceCopy(s, pat, rep);
        NoneLeftAfterCopy(s[0], pat, i, ReplaceAll(s, pat, rep), ReplaceAll(s[1..], pat, rep));
      } else {
        NoneLeftAtStart(s, pat, rep);
      }
    }
  }

  /** The step of `NoneLeftAt` where the text starts with `pat`. */
  lemma NoneLeftAfterHit(pat: string, rep: string, i: nat, r: string, r': string)
    requires pat != [] && rep != [] && Disjoint(rep, pat)
    requires r == rep + r'
    requires i >= |rep| ==> !OccursAt(r', i - |rep|, pat)
    ensures !OccursAt(r, i, pat)
  {
    if i + |pat| <= |r| {
      if i < |rep| {
        assert r[i] == rep[i];
        RepCharBreaks(r, pat, rep, i, i);
      } else {
        assert r'[i - |rep|..i - |rep| + |pat|] == r[i..i + |pat|];
      }
    }
  }

  /** The step of `NoneLeftAt` past a copied first character. */
  lemma NoneLeftAfterCopy(c: char, pat: string, i: nat, r: string, r': string)
    requires r == [c] + r' && i > 0
    requires !OccursAt(r', i - 1, pat)
    ensures !OccursAt(r, i, pat)
  {
    if i + |pat| <= |r| {
      assert r'[i - 1..i - 1 + |pat|] == r[i..i + |pat|];
    }
  }

  /** The output of a step cannot start with `pat` when the input does not. */
  lemma NoneLeftAtStart(s: string, pat: string, rep: string)
    requires pat != [] && rep != [] && Disjoint(rep, pat)
    requires |s| >= |pat| && s[..|pat|] != pat
    ensures !OccursAt(ReplaceAll(s, pat, rep), 0, pat)
  {
    var r := ReplaceAll(s, pat, rep);
    if |pat| <= |r| {
      if k :| 0 <= k < |pat| && r[k] in rep {
        RepCharBreaks(r, pat, rep, 0, k);
      } else {
        CopiedPrefix(s, pat, rep, |pat|);
      }
    }
  }

  lemma ReplaceRemoves(s: string, pat: string, rep: string)
    requires pat != [] && rep != []
    requires Disjoint(rep, pat)
    ensures !Occurs(ReplaceAll(s, pat, rep), pat)
  {
    forall i: nat | i <= |ReplaceAll(s, pat, rep)|
      ensures !OccursAt(ReplaceAll(s, pat, rep), i, pat)
    {
      NoneLeftAt(s, pat, rep, i);
    }
  }

  // ---------------------------------------------------------------
  // The fixed sequence of steps
  // ---------------------------------------------------------------

  /** The (literal, replacement) pairs of `normalize_placeholders`, in the order they are applied. */
  const Steps: seq<(string, string)> := [
    ("[PERSON]", "the customer"),
    ("[ORG]", "the hospital"),
    ("[PHONE]", "the phone number"),
    ("[EMAIL]", "the email address"),
    ("datetime", "the date"),
    ("[POLICY_ID]", "the policy")
  ]

  /** The bracketed placeholders among the literals. */
  const Tokens: seq<string> := ["[PERSON]", "[ORG]", "[PHONE]", "[EMAIL]", "[POLICY_ID]"]

  predicate NonEmptyLiterals(steps: seq<(string, string)>) {
    forall k :: 0 <= k < |steps| ==> steps[k].0 != []
  }

  /** Apply the steps one after another, each to the previous step's output. */
  function ReplaceSteps(steps: seq<(string, string)>, s: string): string
    requires NonEmptyLiterals(steps)
    decreases |steps|
  {
    if steps == [] then s
    else ReplaceSteps(steps[1..], ReplaceAll(s, steps[0].0, steps[0].1))
  }

  /** Lower-case words and spaces only. */
  predicate Plain(rep: string) {
    rep != [] && forall k :: 0 <= k < |rep| ==> 'a' <= rep[k] <= 'z' || rep[k] == ' '
  }

  /** Upper-case letters, brackets and underscores only. */
  predicate TokenShaped(q: string) {
    q != [] && forall k :: 0 <= k < |q| ==> 'A' <= q[k] <= 'Z' || q[k] in "[]_"
  }

  lemma PlainDisjoint(rep: string, q: string)
    requires Plain(rep) && TokenShaped(q)
    ensures Disjoint(rep, q)
  {
    forall c | c in rep
      ensures c !in q
    {
      var j :| 0 <= j < |rep| && rep[j] == c;
      assert 'a' <= c <= 'z' || c == ' ';
    }
  }

  lemma {:induction false} StepsSplit(a: seq<(string, string)>, b: seq<(string, string)>, s: string)
    requires NonEmptyLiterals(a) && NonEmptyLiterals(b)
    ensures NonEmptyLiterals(a + b)
    ensures ReplaceSteps(a + b, s) == ReplaceSteps(b, ReplaceSteps(a, s))
    decreases |a|
  {
    if a == [] {
      assert a + b == b;
    } else {
      assert (a + b)[1..] == a[1..] + b;
      StepsSplit(a[1..], b, ReplaceAll(s, a[0].0, a[0].1));
    }
  }

  /** Steps whose literals do not occur change nothing. */
  lemma {:induction false} StepsIdentity(steps: seq<(string, string)>, s: string)
    requires NonEmptyLiterals(steps)
    requires forall k :: 0 <= k < |steps| ==> !Occurs(s, steps[k].0)
    ensures ReplaceSteps(steps, s) == s
    decreases |steps|
  {
    if steps != [] {
      StepsIdentity(steps[1..], s);
    }
  }

  /** Steps with plain replacements never create a token-shaped text. */
  lemma {:induction false} StepsKeepAbsent(steps: seq<(string, string)>, s: string, q: string)
    requires NonEmptyLiterals(steps)
    requires forall k :: 0 <= k < |steps| ==> Plain(steps[k].1)
    requires TokenShaped(q) && !Occurs(s, q)
    ensures !Occurs(ReplaceSteps(steps, s), q)
    decreases |steps|
  {
    if steps != [] {
      PlainDisjoint(steps[0].1, q);
      ReplaceKeepsAbsent(s, steps[0].0, steps[0].1, q);
      StepsKeepAbsent(steps[1..], ReplaceAll(s, steps[0].0, steps[0].1), q);
    }
  }

  lemma StepsFacts()
    ensures NonEmptyLiterals(Steps)
    ensures forall k :: 0 <= k < |Steps| ==> Plain(Steps[k].1)
  {
    assert Plain("the customer");
    assert Plain("the hospital");
    assert Plain("the phone number");
    assert Plain("the email address");
    assert Plain("the date");
    assert Plain("the policy");
  }

  /** A token-shaped literal of step `k` is gone once step `k` has run, and later steps do not bring it back. */
  lemma StepTokenGone(s: string, k: nat)
    requires k < |Steps| && TokenShaped(Steps[k].0)
    ensures NonEmptyLiterals(Steps)
    ensures !Occurs(ReplaceSteps(Steps, s), Steps[k].0)
  {
    StepsFacts();
    var before, here, after := Steps[..k], [Steps[k]], Steps[k + 1..];
    assert Steps == before + here + after;
    StepsSplit(before, here, s);
    StepsSplit(before + here, after, s);
    var t := ReplaceSteps(before, s);
    assert ReplaceSteps(here, t) == ReplaceAll(t, Steps[k].0, Steps[k].1);
    TokenGoneAfter(t, Steps[k].0, Steps[k].1, after);
  }

  /** Once a token-shaped literal is replaced by plain text, plain-text steps do not bring it back. */
  lemma TokenGoneAfter(t: string, q: string, rep: string, after: seq<(string, string)>)
    requires TokenShaped(q) && Plain(rep)
    requires NonEmptyLiterals(after) && forall k :: 0 <= k < |after| ==> Plain(after[k].1)
    ensures !Occurs(ReplaceSteps(after, ReplaceAll(t, q, rep)), q)
  {
    PlainDisjoint(rep, q);
    ReplaceRemoves(t, q, rep);
    StepsKeepAbsent(after, ReplaceAll(t, q, rep), q);
  }

  lemma TokensAreSteps()
    ensures forall q :: q in Tokens ==> exists k :: 0 <= k < |Steps| && Steps[k].0 == q && TokenShaped(q)
  {
    assert Steps[0].0 == Tokens[0] && TokenShaped(Tokens[0]);
    assert Steps[1].0 == Tokens[1] && TokenShaped(Tokens[1]);
    assert Steps[2].0 == Tokens[2] && TokenShaped(Tokens[2]);
    assert Steps[3].0 == Tokens[3] && TokenShaped(Tokens[3]);
    assert Steps[5].0 == Tokens[4] && TokenShaped(Tokens[4]);
  }

  /**
   * `normalize_placeholders`: text without any of the six literals comes
   * back unchanged, and no bracketed placeholder is left in the output.
   */
  function Normalize(s: string): (r: string)
    ensures r == ReplaceAll(ReplaceAll(ReplaceAll(ReplaceAll(ReplaceAll(ReplaceAll(s,
                   "[PERSON]", "the customer"),
                   "[ORG]", "the hospital"),
                   "[PHONE]", "the phone number"),
                   "[EMAIL]", "the email address"),
                   "datetime", "the date"),
                   "[POLICY_ID]", "the policy")
    ensures (forall k :: 0 <= k < |Steps| ==> !Occurs(s, Steps[k].0)) ==> r == s
    ensures forall q :: q in Tokens ==> !Occurs(r, q)
  {
    StepsFacts();
    NormalizeFacts(s);
    ReplaceSteps(Steps, s)
  }

  lemma NormalizeFacts(s: string)
    ensures NonEmptyLiterals(Steps)
    ensures (forall k :: 0 <= k < |Steps| ==> !Occurs(s, Steps[k].0)) ==> ReplaceSteps(Steps, s) == s
    ensures forall q :: q in Tokens ==> !Occurs(ReplaceSteps(Steps, s), q)
  {
    StepsFacts();
    if forall k :: 0 <= k < |Steps| ==> !Occurs(s, Steps[k].0) {
      StepsIdentity(Steps, s);
    }
    TokensAreSteps();
    forall q | q in Tokens
      ensures !Occurs(ReplaceSteps(Steps, s), q)
    {
      var k :| 0 <= k < |Steps| && Steps[k].0 == q && TokenShaped(q);
      StepTokenGone(s, k);
    }
  }

  /** A text lacking the first character of `q` does not contain `q`. */
  lemma AbsentFirstChar(s: string, q: string)
    requires q != [] && q[0] !in s
    ensures !Occurs(s, q)
  {
    forall i: nat | i <= |s|
      ensures !OccursAt(s, i, q)
    {
      if i + |q| <= |s| {
        assert s[i..i + |q|][0] == s[i];
      }
    }
  }

  lemma DatetimeStep(s: string)
    requires s == "datetimetime"
    ensures ReplaceAll(s, "datetime", "the date") == "the datetime"
  {
    assert s[..8] == "datetime";
    assert s[8..] == "time";
    assert ReplaceAll("time", "datetime", "the date") == "time";
  }

  /** Steps whose literals all start with `[` leave a text without `[` alone. */
  lemma BracketStepsIdle(steps: seq<(string, string)>, s: string)
    requires NonEmptyLiterals(steps)
    requires forall k :: 0 <= k < |steps| ==> steps[k].0[0] == '['
    requires '[' !in s
    ensures ReplaceSteps(steps, s) == s
  {
    forall k | 0 <= k < |steps|
      ensures !Occurs(s, steps[k].0)
    {
      AbsentFirstChar(s, steps[k].0);
    }
    StepsIdentity(steps, s);
  }

  /**
   * A text without the first character of `q` holds no occurrence of `q`
   * even when all but the last character of `q` is appended to it.
   */
  lemma LoneHead(a: string, q: string)
    requires q != [] && q[0] !in a
    ensures !Occurs(a + q[..|q| - 1], q)
  {
    var t := a + q[..|q| - 1];
    forall i: nat | i <= |t|
      ensures !OccursAt(t, i, q)
    {
      if i + |q| <= |t| {
        assert t[i..i + |q|][0] == t[i];
        assert t[i] == a[i];
      }
    }
  }

  /**
   * In text without brackets and without `datetime`, a `[PERSON]`
   * placeholder reads "the customer" and nothing else changes.
   */
  lemma NormalizePerson(a: string, b: string)
    requires '[' !in a && '[' !in b
    requires !Occurs(a + "the customer" + b, "datetime")
    ensures Normalize(a + "[PERSON]" + b) == a + "the customer" + b
  {
    var pat, rep := "[PERSON]", "the customer";
    LoneHead(a, pat);
    ReplaceLeftmost(a, pat, rep, b);
    AbsentFirstChar(b, pat);
    var t := a + rep + b;
    assert '[' !in t;
    AbsentFirstChar(t, "[ORG]");
    AbsentFirstChar(t, "[PHONE]");
    AbsentFirstChar(t, "[EMAIL]");
    AbsentFirstChar(t, "[POLICY_ID]");
  }

  /**
   * The `datetime` step can create the very literal it replaces, so
   * absence is promised only for the bracketed placeholders.
   */
  lemma DatetimeRecreated(s: string)
    requires s == "datetimetime"
    ensures Normalize(s) == "the datetime"
    ensures Occurs(Normalize(s), "datetime")
  {
    StepsFacts();
    var t := "the datetime";
    var head, tail := Steps[..4], Steps[5..];
    assert Steps == (head + [Steps[4]]) + tail;
    StepsSplit(head, [Steps[4]], s);
    StepsSplit(head + [Steps[4]], tail, s);
    IdleAround(s, head);
    assert ReplaceSteps([Steps[4]], s) == t by {
      DatetimeStep(s);
    }
    IdleAround(t, tail);
    DatetimeInside(t);
  }

  /** The bracketed steps leave both texts of the `datetime` example alone. */
  lemma IdleAround(s: string, steps: seq<(string, string)>)
    requires s == "datetimetime" || s == "the datetime"
    requires steps == Steps[..4] || steps == Steps[5..]
    ensures NonEmptyLiterals(steps) && ReplaceSteps(steps, s) == s
  {
    forall k | 0 <= k < |steps|
      ensures steps[k].0 != [] && steps[k].0[0] == '['
    {
    }
    assert '[' !in s;
    BracketStepsIdle(steps, s);
  }

  lemma DatetimeInside(t: string)
    requires t == "the datetime"
    ensures Occurs(t, "datetime")
  {
    assert t[4..12] == "datetime";
    assert OccursAt(t, 4, "datetime");
  }
}
