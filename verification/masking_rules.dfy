/**
 * What each modelled rule's regular expression matches, stated declaratively
 * (digits, separators and word boundaries at fixed places) and proved to
 * agree with the scanning matchers of `Masking`, in both directions.
 */
module MaskingRules {
  import opened Wrappers
  import opened Text
  import opened Masking
  import opened MaskingFold

  /** A standalone run's length is what `StandaloneLen` reports. */
  lemma StandaloneLenSpec(s: string, i: nat, e: nat)
    requires i < e <= |s|
    ensures StandaloneLen(s, i) == e - i <==> StandaloneRun(s, i, e)
  {
    if StandaloneRun(s, i, e) {
      StandaloneRunLen(s, i, e);
    }
    if StandaloneLen(s, i) == e - i {
      RunLenDigits(s, i);
    }
  }

  /** ZIP: a standalone run of five to seven digits becomes its first three digits and `[ZIP]`. */
  lemma ZipSpec(s: string, i: nat)
    requires i <= |s|
    ensures ZipAt(s, i).Some? ==>
              var h := ZipAt(s, i).value;
              5 <= h.end - i <= 7 && StandaloneRun(s, i, h.end) && h.text == s[i..i + 3] + "[ZIP]"
    ensures forall e :: i <= e <= |s| && 5 <= e - i <= 7 && StandaloneRun(s, i, e) ==>
              ZipAt(s, i) == Some(Hit(e, s[i..i + 3] + "[ZIP]"))
  {
    if ZipAt(s, i).Some? {
      StandaloneLenSpec(s, i, ZipAt(s, i).value.end);
    }
    forall e | i <= e <= |s| && 5 <= e - i <= 7 && StandaloneRun(s, i, e)
      ensures ZipAt(s, i) == Some(Hit(e, s[i..i + 3] + "[ZIP]"))
    {
      StandaloneLenSpec(s, i, e);
    }
  }

  /** Bank account: exactly the standalone runs of eight to twenty digits. */
  lemma BankAccountSpec(s: string, i: nat)
    requires i <= |s|
    ensures forall e :: i <= e <= |s| ==>
              (BankAccountAt(s, i) == Some(Hit(e, "[BANK_ACCOUNT]")) <==> 8 <= e - i <= 20 && StandaloneRun(s, i, e))
  {
    forall e | i <= e <= |s|
      ensures BankAccountAt(s, i) == Some(Hit(e, "[BANK_ACCOUNT]")) <==> 8 <= e - i <= 20 && StandaloneRun(s, i, e)
    {
      if e > i {
        StandaloneLenSpec(s, i, e);
      }
    }
  }

  /** The SSN pattern: ddd-dd-dddd between word boundaries. */
  predicate SsnShape(s: string, i: nat, e: nat) {
    && e == i + 11 <= |s|
    && WordStart(s, i)
    && AllDigits(s[i..i + 3]) && s[i + 3] == '-'
    && AllDigits(s[i + 4..i + 6]) && s[i + 6] == '-'
    && AllDigits(s[i + 7..i + 11])
    && WordEnd(s, e)
  }

  lemma SsnSpec(s: string, i: nat)
    requires i <= |s|
    ensures SsnAt(s, i).Some? ==> SsnShape(s, i, SsnAt(s, i).value.end) && SsnAt(s, i).value.text == "[SSN]"
    ensures forall e: nat :: SsnShape(s, i, e) ==> SsnAt(s, i) == Some(Hit(e, "[SSN]"))
  {
    if SsnAt(s, i).Some? {
      RunLenDigits(s, i);
      RunLenDigits(s, i + 4);
      RunLenPrefix(s, i + 7, 4);
    }
    if SsnShape(s, i, i + 11) {
      RunLenExact(s, i, i + 3);
      RunLenExact(s, i + 4, i + 6);
      RunLenAtLeast(s, i + 7, i + 11);
    }
  }

  /** The MRN pattern: `MRN` in any case, three to ten digits, between word boundaries. */
  predicate MrnShape(s: string, i: nat, e: nat) {
    && i + 6 <= e <= i + 13
    && e <= |s|
    && WordStart(s, i)
    && HasPrefixAt(s, i, "mrn")
    && AllDigits(s[i + 3..e])
    && WordEnd(s, e)
  }

  lemma MrnSpec(s: string, i: nat)
    requires i <= |s|
    ensures MrnAt(s, i).Some? ==> MrnShape(s, i, MrnAt(s, i).value.end) && MrnAt(s, i).value.text == "[MRN]"
    ensures forall e: nat :: MrnShape(s, i, e) ==> MrnAt(s, i) == Some(Hit(e, "[MRN]"))
  {
    if MrnAt(s, i).Some? {
      RunLenDigits(s, i + 3);
    }
    forall e: nat | MrnShape(s, i, e)
      ensures MrnAt(s, i) == Some(Hit(e, "[MRN]"))
    {
      RunLenExact(s, i + 3, e);
    }
  }

  // ---------------------------------------------------------------
  // Date rule: optional day-month group, then a four-digit year
  // ---------------------------------------------------------------

  /** `a` digits starting at `j`, then a `-` or `/`. */
  predicate DigitsThenSep(s: string, j: nat, a: nat) {
    j + a < |s| && AllDigits(s[j..j + a]) && IsDateSep(s[j + a])
  }

  /** `\d{1,2}[-/]\d{1,2}[-/]` spans `s[i..y]`. */
  predicate DayMonthShape(s: string, i: nat, y: nat) {
    || (DigitsThenSep(s, i, 1) && DigitsThenSep(s, i + 2, 1) && y == i + 4)
    || (DigitsThenSep(s, i, 1) && DigitsThenSep(s, i + 2, 2) && y == i + 5)
    || (DigitsThenSep(s, i, 2) && DigitsThenSep(s, i + 3, 1) && y == i + 5)
    || (DigitsThenSep(s, i, 2) && DigitsThenSep(s, i + 3, 2) && y == i + 6)
  }

  /** The date pattern spans `s[i..e]`: the last four characters are the year. */
  predicate DateShape(s: string, i: nat, e: nat) {
    && i + 4 <= e <= |s|
    && WordStart(s, i)
    && AllDigits(s[e - 4..e])
    && WordEnd(s, e)
    && (e == i + 4 || DayMonthShape(s, i, e - 4))
  }

  /** The day-month part the matcher finds is exactly one of the four shapes. */
  lemma DayMonthPartSpec(s: string, i: nat)
    requires i <= |s|
    ensures DayMonthPart(s, i).Some? ==> DigitsThenSep(s, i, DayMonthPart(s, i).value - i - 1)
    ensures forall a :: 1 <= a <= 2 && DigitsThenSep(s, i, a) ==> DayMonthPart(s, i) == Some(i + a + 1)
  {
    if DayMonthPart(s, i).Some? {
      RunLenDigits(s, i);
    }
    forall a | 1 <= a <= 2 && DigitsThenSep(s, i, a)
      ensures DayMonthPart(s, i) == Some(i + a + 1)
    {
      RunLenExact(s, i, i + a);
    }
  }

  lemma YearAtSpec(s: string, y: nat)
    requires y <= |s|
    ensures YearAt(s, y).Some? ==>
              y + 4 <= |s| && AllDigits(s[y..y + 4]) && WordEnd(s, y + 4) && YearAt(s, y).value.end == y + 4
    ensures y + 4 <= |s| && AllDigits(s[y..y + 4]) && WordEnd(s, y + 4) ==>
              YearAt(s, y) == Some(Hit(y + 4, "[DATE-" + s[y..y + 4] + "]"))
  {
    if YearAt(s, y).Some? {
      RunLenDigits(s, y);
    }
    if y + 4 <= |s| && AllDigits(s[y..y + 4]) && WordEnd(s, y + 4) {
      RunLenExact(s, y, y + 4);
    }
  }

  /** Every date match has the date shape, and its replacement keeps the year. */
  lemma DateSound(s: string, i: nat)
    requires i <= |s|
    ensures DateAt(s, i).Some? ==>
              var h := DateAt(s, i).value;
              DateShape(s, i, h.end) && h.text == "[DATE-" + s[h.end - 4..h.end] + "]"
  {
    if DateAt(s, i).Some? {
      var first := DayMonthPart(s, i);
      var second := if first.Some? then DayMonthPart(s, first.value) else None;
      if second.Some? && YearAt(s, second.value).Some? {
        GroupedSound(s, i, first.value, second.value);
      } else {
        YearAtSpec(s, i);
      }
    }
  }

  /** A date with a day-month part: both parts are one of the four shapes, then the year. */
  lemma GroupedSound(s: string, i: nat, j: nat, y: nat)
    requires i <= j <= |s| && y <= |s|
    requires DayMonthPart(s, i) == Some(j) && DayMonthPart(s, j) == Some(y)
    requires YearAt(s, y).Some?
    ensures var h := YearAt(s, y).value;
            h.end == y + 4 && DayMonthShape(s, i, y) && AllDigits(s[y..y + 4]) && WordEnd(s, y + 4)
            && h.text == "[DATE-" + s[y..y + 4] + "]"
  {
    DayMonthPartSpec(s, i);
    DayMonthPartSpec(s, j);
    YearAtSpec(s, y);
  }

  /** Every text of the date shape is matched, up to exactly the end of its year. */
  lemma DateComplete(s: string, i: nat, e: nat)
    requires DateShape(s, i, e)
    ensures DateAt(s, i) == Some(Hit(e, "[DATE-" + s[e - 4..e] + "]"))
  {
    YearAtSpec(s, e - 4);
    DayMonthPartSpec(s, i);
    if e == i + 4 {
      RunLenExact(s, i, i + 4);
      assert DayMonthPart(s, i).None?;
    } else {
      var j := DayMonthPart(s, i).value;
      DayMonthPartSpec(s, j);
      assert DayMonthPart(s, j) == Some(e - 4);
    }
  }

  /** Date: the year is kept, the day and month (when present) are masked. */
  lemma DateSpec(s: string, i: nat)
    requires i <= |s|
    ensures DateAt(s, i).Some? ==>
              var h := DateAt(s, i).value;
              DateShape(s, i, h.end) && h.text == "[DATE-" + s[h.end - 4..h.end] + "]"
    ensures forall e: nat :: DateShape(s, i, e) ==> DateAt(s, i) == Some(Hit(e, "[DATE-" + s[e - 4..e] + "]"))
  {
    DateSound(s, i);
    forall e: nat | DateShape(s, i, e)
      ensures DateAt(s, i) == Some(Hit(e, "[DATE-" + s[e - 4..e] + "]"))
    {
      DateComplete(s, i, e);
    }
  }

  // ---------------------------------------------------------------
  // Policy rule: a prefix word, an optional separator, 4-10 digits
  // ---------------------------------------------------------------

  /** `\d{4,10}\b` spans `s[k..e]`. */
  predicate PolicyDigits(s: string, k: nat, e: nat) {
    k + 4 <= e <= k + 10 && e <= |s| && AllDigits(s[k..e]) && WordEnd(s, e)
  }

  /** `[-_]?\d{4,10}\b` spans `s[j..e]`. */
  predicate PolicyTailShape(s: string, j: nat, e: nat) {
    || PolicyDigits(s, j, e)
    || (j < |s| && (s[j] == '-' || s[j] == '_') && PolicyDigits(s, j + 1, e))
  }

  predicate PrefixThenTail(s: string, i: nat, p: string, e: nat) {
    HasPrefixAt(s, i, p) && PolicyTailShape(s, i + |p|, e)
  }

  /** The policy pattern spans `s[i..e]`, with the prefix in any letter case. */
  predicate PolicyShape(s: string, i: nat, e: nat) {
    && i <= |s|
    && WordStart(s, i)
    && (|| PrefixThenTail(s, i, "pol", e)
        || PrefixThenTail(s, i, "clm", e)
        || PrefixThenTail(s, i, "claim", e)
        || PrefixThenTail(s, i, "policy", e)
        || PrefixThenTail(s, i, "acct", e))
  }

  lemma PolicyTailSpec(s: string, j: nat)
    requires j <= |s|
    ensures PolicyTail(s, j).Some? ==> PolicyTailShape(s, j, PolicyTail(s, j).value)
    ensures forall e: nat :: PolicyTailShape(s, j, e) ==> PolicyTail(s, j) == Some(e)
  {
    var k := if j < |s| && (s[j] == '-' || s[j] == '_') then j + 1 else j;
    RunLenDigits(s, k);
    forall e: nat | PolicyTailShape(s, j, e)
      ensures PolicyTail(s, j) == Some(e)
    {
      if PolicyDigits(s, j + 1, e) && j < |s| && (s[j] == '-' || s[j] == '_') {
        RunLenExact(s, j + 1, e);
      } else {
        RunLenExact(s, j, e);
      }
    }
  }

  /** The prefix alternative `p` tried at `i` leads to a match. */
  predicate PrefixFits(s: string, i: nat, p: string)
    requires i <= |s|
  {
    HasPrefixAt(s, i, p) && PolicyTail(s, i + |p|).Some?
  }

  /** The prefix alternatives exclude each other: at most one of them leads to a match. */
  lemma PolicyPrefixesExclusive(s: string, i: nat)
    requires i <= |s|
    ensures forall p, q :: 0 <= p < q < |PolicyPrefixes| ==>
              !(PrefixFits(s, i, PolicyPrefixes[p]) && PrefixFits(s, i, PolicyPrefixes[q]))
  {
    forall p, q | 0 <= p < q < |PolicyPrefixes|
      ensures !(PrefixFits(s, i, PolicyPrefixes[p]) && PrefixFits(s, i, PolicyPrefixes[q]))
    {
      if p == 0 && q == 3 {
        PolNotPolicy(s, i);
      } else {
        var k := if p == 1 && q == 2 then 2 else 0;
        assert Lower(PolicyPrefixes[p][k]) != Lower(PolicyPrefixes[q][k]);
        PrefixesDiffer(s, i, PolicyPrefixes[p], PolicyPrefixes[q], k);
      }
    }
  }

  /** Two prefixes that differ, case aside, at some index cannot both be at `i`. */
  lemma PrefixesDiffer(s: string, i: nat, a: string, b: string, k: nat)
    requires k < |a| && k < |b| && Lower(a[k]) != Lower(b[k])
    ensures !(HasPrefixAt(s, i, a) && HasPrefixAt(s, i, b))
  {
  }

  /** `pol` leads to a match only with a digit or separator after it, never the `i` of `policy`. */
  lemma PolNotPolicy(s: string, i: nat)
    requires i <= |s|
    ensures !(PrefixFits(s, i, "pol") && PrefixFits(s, i, "policy"))
  {
    PolTailStart(s, i);
    PolicyFourth(s, i);
  }

  lemma PolTailStart(s: string, i: nat)
    requires i <= |s|
    ensures PrefixFits(s, i, "pol") ==> IsDigit(s[i + 3]) || s[i + 3] == '-' || s[i + 3] == '_'
  {
    if PrefixFits(s, i, "pol") {
      var k := if s[i + 3] == '-' || s[i + 3] == '_' then i + 4 else i + 3;
      assert RunLen(s, k) >= 4;
    }
  }

  lemma PolicyFourth(s: string, i: nat)
    requires i <= |s|
    ensures HasPrefixAt(s, i, "policy") ==> Lower(s[i + 3]) == 'i'
  {
    if HasPrefixAt(s, i, "policy") {
      assert Lower(s[i + 3]) == Lower("policy"[3]);
    }
  }

  lemma {:induction false} PolicyFromSound(s: string, i: nat, p: nat)
    requires i <= |s|
    ensures PolicyFrom(s, i, p).Some? ==>
              exists q :: p <= q < |PolicyPrefixes| && PrefixFits(s, i, PolicyPrefixes[q]) &&
                PolicyFrom(s, i, p).value == Hit(PolicyTail(s, i + |PolicyPrefixes[q]|).value, "[POLICY_ID]")
    decreases |PolicyPrefixes| - p
  {
    if p < |PolicyPrefixes| && !PrefixFits(s, i, PolicyPrefixes[p]) {
      PolicyFromSound(s, i, p + 1);
      PolicySoundPast(s, i, p);
    } else if p < |PolicyPrefixes| {
      PolicySoundHere(s, i, p);
    }
  }

  /** The step of `PolicyFromSound` past an alternative that does not fit. */
  lemma PolicySoundPast(s: string, i: nat, p: nat)
    requires i <= |s| && p < |PolicyPrefixes| && !PrefixFits(s, i, PolicyPrefixes[p])
    requires PolicyFrom(s, i, p + 1).Some? ==>
               exists q :: p + 1 <= q < |PolicyPrefixes| && PrefixFits(s, i, PolicyPrefixes[q]) &&
                 PolicyFrom(s, i, p + 1).value == Hit(PolicyTail(s, i + |PolicyPrefixes[q]|).value, "[POLICY_ID]")
    ensures PolicyFrom(s, i, p).Some? ==>
              exists q :: p <= q < |PolicyPrefixes| && PrefixFits(s, i, PolicyPrefixes[q]) &&
                PolicyFrom(s, i, p).value == Hit(PolicyTail(s, i + |PolicyPrefixes[q]|).value, "[POLICY_ID]")
  {
    PolicyFromSkip(s, i, p);
  }

  /** The case of `PolicyFromSound` where the `p`-th alternative fits: it is the witness. */
  lemma PolicySoundHere(s: string, i: nat, p: nat)
    requires i <= |s| && p < |PolicyPrefixes| && PrefixFits(s, i, PolicyPrefixes[p])
    ensures PolicyFrom(s, i, p).Some? ==>
              exists q :: p <= q < |PolicyPrefixes| && PrefixFits(s, i, PolicyPrefixes[q]) &&
                PolicyFrom(s, i, p).value == Hit(PolicyTail(s, i + |PolicyPrefixes[q]|).value, "[POLICY_ID]")
  {
    PolicyFromFits(s, i, p);
  }

  lemma {:induction false} PolicyFromComplete(s: string, i: nat, p: nat, q: nat)
    requires i <= |s|
    requires p <= q < |PolicyPrefixes|
    requires PrefixFits(s, i, PolicyPrefixes[q])
    requires forall r :: p <= r < q ==> !PrefixFits(s, i, PolicyPrefixes[r])
    ensures PolicyFrom(s, i, p) == Some(Hit(PolicyTail(s, i + |PolicyPrefixes[q]|).value, "[POLICY_ID]"))
    decreases q - p
  {
    if p < q {
      NoneFitFromNext(s, i, p, q);
      PolicyFromComplete(s, i, p + 1, q);
    }
    PolicyCompleteCase(s, i, p, q);
  }

  /** `PolicyFromComplete` from the `p`-th alternative, given it from the next one when `p` is before `q`. */
  lemma PolicyCompleteCase(s: string, i: nat, p: nat, q: nat)
    requires i <= |s| && p <= q < |PolicyPrefixes| && PrefixFits(s, i, PolicyPrefixes[q])
    requires p < q ==> !PrefixFits(s, i, PolicyPrefixes[p])
    requires p < q ==> PolicyFrom(s, i, p + 1) == Some(Hit(PolicyTail(s, i + |PolicyPrefixes[q]|).value, "[POLICY_ID]"))
    ensures PolicyFrom(s, i, p) == Some(Hit(PolicyTail(s, i + |PolicyPrefixes[q]|).value, "[POLICY_ID]"))
  {
    if p < q {
      PolicyFromPast(s, i, p, q);
    } else {
      PolicyFromFits(s, i, q);
    }
  }

  /** An alternative that does not fit passes the search on to the next one. */
  lemma PolicyFromSkip(s: string, i: nat, p: nat)
    requires i <= |s| && p < |PolicyPrefixes| && !PrefixFits(s, i, PolicyPrefixes[p])
    ensures PolicyFrom(s, i, p) == PolicyFrom(s, i, p + 1)
  {
  }

  lemma NoneFitFromNext(s: string, i: nat, p: nat, q: nat)
    requires i <= |s| && p < q < |PolicyPrefixes|
    requires forall r :: p <= r < q ==> !PrefixFits(s, i, PolicyPrefixes[r])
    ensures !PrefixFits(s, i, PolicyPrefixes[p])
    ensures p + 1 <= q && forall r :: p + 1 <= r < q ==> !PrefixFits(s, i, PolicyPrefixes[r])
  {
  }

  /** The step of `PolicyFromComplete`: the `p`-th alternative, before the fitting one, is passed over. */
  lemma PolicyFromPast(s: string, i: nat, p: nat, q: nat)
    requires i <= |s| && p < q < |PolicyPrefixes| && PrefixFits(s, i, PolicyPrefixes[q])
    requires !PrefixFits(s, i, PolicyPrefixes[p])
    requires PolicyFrom(s, i, p + 1) == Some(Hit(PolicyTail(s, i + |PolicyPrefixes[q]|).value, "[POLICY_ID]"))
    ensures PolicyFrom(s, i, p) == Some(Hit(PolicyTail(s, i + |PolicyPrefixes[q]|).value, "[POLICY_ID]"))
  {
    PolicyFromSkip(s, i, p);
  }

  /** An alternative that fits ends the search with its tail. */
  lemma PolicyFromFits(s: string, i: nat, q: nat)
    requires i <= |s| && q < |PolicyPrefixes| && PrefixFits(s, i, PolicyPrefixes[q])
    ensures PolicyFrom(s, i, q) == Some(Hit(PolicyTail(s, i + |PolicyPrefixes[q]|).value, "[POLICY_ID]"))
  {
  }

  /** A fitting alternative is one of the disjuncts of the policy shape. */
  lemma FitsShape(s: string, i: nat, q: nat)
    requires i <= |s| && WordStart(s, i)
    requires q < |PolicyPrefixes| && PrefixFits(s, i, PolicyPrefixes[q])
    ensures PolicyShape(s, i, PolicyTail(s, i + |PolicyPrefixes[q]|).value)
  {
    PolicyTailSpec(s, i + |PolicyPrefixes[q]|);
    var e := PolicyTail(s, i + |PolicyPrefixes[q]|).value;
    assert PrefixThenTail(s, i, PolicyPrefixes[q], e);
    if q == 0 {
      assert PrefixThenTail(s, i, "pol", e);
    } else if q == 1 {
      assert PrefixThenTail(s, i, "clm", e);
    } else if q == 2 {
      assert PrefixThenTail(s, i, "claim", e);
    } else if q == 3 {
      assert PrefixThenTail(s, i, "policy", e);
    } else {
      assert PrefixThenTail(s, i, "acct", e);
    }
  }

  /** The alternative a shape uses, as an index into the prefix table. */
  lemma ShapePrefix(s: string, i: nat, e: nat) returns (q: nat)
    requires PolicyShape(s, i, e)
    ensures q < |PolicyPrefixes| && PrefixThenTail(s, i, PolicyPrefixes[q], e)
  {
    if PrefixThenTail(s, i, "pol", e) {
      q := 0;
    } else if PrefixThenTail(s, i, "clm", e) {
      q := 1;
    } else if PrefixThenTail(s, i, "claim", e) {
      q := 2;
    } else if PrefixThenTail(s, i, "policy", e) {
      q := 3;
    } else {
      q := 4;
    }
  }

  lemma PolicySound(s: string, i: nat)
    requires i <= |s|
    ensures PolicyAt(s, i).Some? ==>
              PolicyShape(s, i, PolicyAt(s, i).value.end) && PolicyAt(s, i).value.text == "[POLICY_ID]"
  {
    PolicyFromSound(s, i, 0);
    if PolicyAt(s, i).Some? {
      var q :| 0 <= q < |PolicyPrefixes| && PrefixFits(s, i, PolicyPrefixes[q]) &&
        PolicyFrom(s, i, 0).value == Hit(PolicyTail(s, i + |PolicyPrefixes[q]|).value, "[POLICY_ID]");
      FitsShape(s, i, q);
    }
  }

  lemma PolicyComplete(s: string, i: nat, e: nat)
    requires PolicyShape(s, i, e)
    ensures PolicyAt(s, i) == Some(Hit(e, "[POLICY_ID]"))
  {
    var q := ShapePrefix(s, i, e);
    var j := i + |PolicyPrefixes[q]|;
    assert PrefixFits(s, i, PolicyPrefixes[q]) && PolicyTail(s, j) == Some(e) by {
      PolicyTailSpec(s, j);
    }
    assert forall r :: 0 <= r < q ==> !PrefixFits(s, i, PolicyPrefixes[r]) by {
      PolicyPrefixesExclusive(s, i);
    }
    PolicyFromComplete(s, i, 0, q);
  }

  /** Policy: a prefix word (any case), optional `-`/`_`, four to ten digits, all between word boundaries. */
  lemma PolicySpec(s: string, i: nat)
    requires i <= |s|
    ensures PolicyAt(s, i).Some? ==>
              PolicyShape(s, i, PolicyAt(s, i).value.end) && PolicyAt(s, i).value.text == "[POLICY_ID]"
    ensures forall e: nat :: PolicyShape(s, i, e) ==> PolicyAt(s, i) == Some(Hit(e, "[POLICY_ID]"))
  {
    PolicySound(s, i);
    forall e: nat | PolicyShape(s, i, e)
      ensures PolicyAt(s, i) == Some(Hit(e, "[POLICY_ID]"))
    {
      PolicyComplete(s, i, e);
    }
  }

  // ---------------------------------------------------------------
  // re.IGNORECASE: the policy rule cannot tell letter case apart
  // ---------------------------------------------------------------

  /** `s` and `t` differ at most in the case of ASCII letters. */
  predicate SameUpToCase(s: string, t: string) {
    |s| == |t| && forall k :: 0 <= k < |s| ==> Lower(s[k]) == Lower(t[k])
  }

  lemma LowerKeepsClass(a: char, b: char)
    requires Lower(a) == Lower(b)
    ensures IsWordChar(a) == IsWordChar(b) && IsDigit(a) == IsDigit(b)
    ensures (a == '-') == (b == '-') && (a == '_') == (b == '_')
  {
  }

  lemma DigitsIgnoreCase(s: string, t: string, k: nat, m: nat)
    requires SameUpToCase(s, t)
    requires k <= m <= |s|
    ensures AllDigits(s[k..m]) == AllDigits(t[k..m])
  {
    forall j | 0 <= j < m - k
      ensures IsDigit(s[k..m][j]) == IsDigit(t[k..m][j])
    {
      assert s[k..m][j] == s[k + j] && t[k..m][j] == t[k + j];
      LowerKeepsClass(s[k + j], t[k + j]);
    }
  }

  lemma BoundariesIgnoreCase(s: string, t: string, k: nat)
    requires SameUpToCase(s, t)
    requires k <= |s|
    ensures WordStart(s, k) == WordStart(t, k) && WordEnd(s, k) == WordEnd(t, k)
  {
    if k > 0 { LowerKeepsClass(s[k - 1], t[k - 1]); }
    if k < |s| { LowerKeepsClass(s[k], t[k]); }
  }

  lemma TailIgnoresCase(s: string, t: string, j: nat, e: nat)
    requires SameUpToCase(s, t)
    ensures PolicyTailShape(s, j, e) == PolicyTailShape(t, j, e)
  {
    if j + 4 <= e <= |s| { DigitsIgnoreCase(s, t, j, e); BoundariesIgnoreCase(s, t, e); }
    if j + 5 <= e <= |s| { DigitsIgnoreCase(s, t, j + 1, e); }
    if j < |s| { LowerKeepsClass(s[j], t[j]); }
  }

  lemma PrefixIgnoresCase(s: string, t: string, i: nat, p: string, e: nat)
    requires SameUpToCase(s, t)
    ensures PrefixThenTail(s, i, p, e) == PrefixThenTail(t, i, p, e)
  {
    TailIgnoresCase(s, t, i + |p|, e);
    assert HasPrefixAt(s, i, p) == HasPrefixAt(t, i, p);
  }

  lemma ShapeIgnoresCase(s: string, t: string, i: nat, e: nat)
    requires SameUpToCase(s, t)
    ensures PolicyShape(s, i, e) == PolicyShape(t, i, e)
  {
    if i <= |s| { BoundariesIgnoreCase(s, t, i); }
    PrefixIgnoresCase(s, t, i, "pol", e);
    PrefixIgnoresCase(s, t, i, "clm", e);
    PrefixIgnoresCase(s, t, i, "claim", e);
    PrefixIgnoresCase(s, t, i, "policy", e);
    PrefixIgnoresCase(s, t, i, "acct", e);
  }

  /** The policy matcher gives the same answer on texts that differ only in letter case. */
  lemma PolicyIgnoresCase(s: string, t: string, i: nat)
    requires SameUpToCase(s, t)
    requires i <= |s|
    ensures PolicyAt(s, i) == PolicyAt(t, i)
  {
    PolicySpec(s, i);
    PolicySpec(t, i);
    if PolicyAt(s, i).Some? {
      ShapeIgnoresCase(s, t, i, PolicyAt(s, i).value.end);
    }
    if PolicyAt(t, i).Some? {
      ShapeIgnoresCase(s, t, i, PolicyAt(t, i).value.end);
    }
  }

  lemma SameUpToCaseConcat(a: string, b: string, c: string, d: string)
    requires SameUpToCase(a, c) && SameUpToCase(b, d)
    ensures SameUpToCase(a + b, c + d)
  {
    forall k | 0 <= k < |a + b|
      ensures Lower((a + b)[k]) == Lower((c + d)[k])
    {
      if k >= |a| {
        assert (a + b)[k] == b[k - |a|] && (c + d)[k] == d[k - |a|];
      }
    }
  }

  lemma {:induction false} PolicyPassFromIgnoresCase(s: string, t: string, i: nat)
    requires SameUpToCase(s, t)
    requires i <= |s|
    ensures SameUpToCase(PassFrom(Policy, s, i), PassFrom(Policy, t, i))
    decreases |s| - i
  {
    if i < |s| {
      var next := PolicyNext(s, i);
      PolicyPassFromIgnoresCase(s, t, next);
      StepIgnoresCase(s, t, i, next);
    }
  }

  /** Where the scan resumes after `i`: past the policy number found there, or at the next character. */
  lemma PolicyNext(s: string, i: nat) returns (next: nat)
    requires i < |s|
    ensures i < next <= |s|
    ensures next == if PolicyAt(s, i).Some? then PolicyAt(s, i).value.end else i + 1
  {
    next := if PolicyAt(s, i).Some? then PolicyAt(s, i).value.end else i + 1;
  }

  /** The step of `PolicyPassFromIgnoresCase`: both texts advance to the same index. */
  lemma StepIgnoresCase(s: string, t: string, i: nat, next: nat)
    requires SameUpToCase(s, t) && i < |s|
    requires next == if PolicyAt(s, i).Some? then PolicyAt(s, i).value.end else i + 1
    requires next <= |s|
    requires SameUpToCase(PassFrom(Policy, s, next), PassFrom(Policy, t, next))
    ensures SameUpToCase(PassFrom(Policy, s, i), PassFrom(Policy, t, i))
  {
    if PolicyAt(s, i).Some? {
      HitIgnoresCase(s, t, i, PolicyAt(s, i).value);
    } else {
      CopyIgnoresCase(s, t, i);
    }
  }

  /** The step of `PolicyPassFromIgnoresCase` where both texts match at `i`. */
  lemma HitIgnoresCase(s: string, t: string, i: nat, h: Hit)
    requires SameUpToCase(s, t) && i < |s|
    requires PolicyAt(s, i) == Some(h)
    requires SameUpToCase(PassFrom(Policy, s, h.end), PassFrom(Policy, t, h.end))
    ensures SameUpToCase(PassFrom(Policy, s, i), PassFrom(Policy, t, i))
  {
    PolicyIgnoresCase(s, t, i);
    ReplaceStep(Policy, s, i);
    ReplaceStep(Policy, t, i);
    SameUpToCaseConcat(h.text, PassFrom(Policy, s, h.end), h.text, PassFrom(Policy, t, h.end));
  }

  /** The step of `PolicyPassFromIgnoresCase` where neither text matches at `i`. */
  lemma CopyIgnoresCase(s: string, t: string, i: nat)
    requires SameUpToCase(s, t) && i < |s|
    requires PolicyAt(s, i).None?
    requires SameUpToCase(PassFrom(Policy, s, i + 1), PassFrom(Policy, t, i + 1))
    ensures SameUpToCase(PassFrom(Policy, s, i), PassFrom(Policy, t, i))
  {
    PolicyIgnoresCase(s, t, i);
    CopyStep(Policy, s, i);
    CopyStep(Policy, t, i);
    SameUpToCaseConcat([s[i]], PassFrom(Policy, s, i + 1), [t[i]], PassFrom(Policy, t, i + 1));
  }

  /** Matching is case-insensitive: changing letter case in the input only changes letter case in the output. */
  lemma PolicyPassIgnoresCase(s: string, t: string)
    requires SameUpToCase(s, t)
    ensures SameUpToCase(Pass(Policy, s), Pass(Policy, t))
  {
    PolicyPassFromIgnoresCase(s, t, 0);
  }
}
