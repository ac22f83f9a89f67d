/**
 * Worked inputs for the rule table: what single rules do to concrete
 * transcripts, and what the order of the table does to them.
 */
module MaskingExamples {
  import opened Wrappers
  import opened Text
  import opened Masking
  import opened MaskingFold
  import opened MaskingRules

  // ---------------------------------------------------------------
  // Positions where no rule can match
  // ---------------------------------------------------------------

  /** Every rule starts at a word boundary, so nothing matches in the middle of a word. */
  lemma MidWordNoMatch(r: SimpleRule, s: string, i: nat)
    requires 0 < i < |s| && IsWordChar(s[i - 1])
    ensures MatchAt(r, s, i).None?
  {
    assert !WordStart(s, i);
  }

  /** Every rule needs a digit, so nothing matches in a text without digits. */
  lemma DigitFreeNoMatch(r: SimpleRule, s: string, i: nat)
    requires i <= |s|
    requires forall k :: 0 <= k < |s| ==> !IsDigit(s[k])
    ensures MatchAt(r, s, i).None?
  {
    forall k: nat | k <= |s|
      ensures RunLen(s, k) == 0
    {
      if k < |s| { assert !IsDigit(s[k]); }
    }
    if r == Policy {
      PolicyFromSound(s, i, 0);
    }
  }

  lemma DigitFreeUnchanged(r: SimpleRule, s: string)
    requires forall k :: 0 <= k < |s| ==> !IsDigit(s[k])
    ensures Pass(r, s) == s
  {
    forall p | 0 <= p < |s|
      ensures MatchAt(r, s, p).None?
    {
      DigitFreeNoMatch(r, s, p);
    }
    PassIdentity(r, s);
  }

  /** A rule other than policy and MRN starts with a digit. */
  lemma NonDigitNoMatch(r: SimpleRule, s: string, i: nat)
    requires i < |s| && !IsDigit(s[i])
    requires r != Policy && r != Mrn
    ensures MatchAt(r, s, i).None?
  {
    assert RunLen(s, i) == 0;
  }

  /** Rules other than policy and MRN copy a digit-free head of the text unchanged. */
  lemma NonDigitsCopied(r: SimpleRule, s: string, j: nat)
    requires r != Policy && r != Mrn && j <= |s|
    requires forall p :: 0 <= p < j ==> !IsDigit(s[p])
    ensures PassFrom(r, s, 0) == s[..j] + PassFrom(r, s, j)
  {
    forall p | 0 <= p < j
      ensures MatchAt(r, s, p).None?
    {
      NonDigitNoMatch(r, s, p);
    }
    CopyRange(r, s, 0, j);
    assert s[0..j] == s[..j];
  }

  /** Rules other than policy and MRN only need checking where a digit run starts a word. */
  lemma OnlyRunStartsMatter(r: SimpleRule, s: string)
    requires r != Policy && r != Mrn
    requires forall i :: 0 <= i < |s| && IsDigit(s[i]) && WordStart(s, i) ==> MatchAt(r, s, i).None?
    ensures Pass(r, s) == s
  {
    forall i | 0 <= i < |s|
      ensures MatchAt(r, s, i).None?
    {
      if !IsDigit(s[i]) {
        NonDigitNoMatch(r, s, i);
      } else if !WordStart(s, i) {
        MidWordNoMatch(r, s, i);
      }
    }
    PassIdentity(r, s);
  }

  /** The policy rule cannot match where no character is a `p`, `c` or `a` in either case. */
  lemma NoPolicyInitial(s: string)
    requires forall k :: 0 <= k < |s| ==> Lower(s[k]) != 'p' && Lower(s[k]) != 'c' && Lower(s[k]) != 'a'
    ensures Pass(Policy, s) == s
  {
    forall i | 0 <= i < |s|
      ensures MatchAt(Policy, s, i).None?
    {
      PolicyFromSound(s, i, 0);
      forall q | 0 <= q < |PolicyPrefixes|
        ensures !HasPrefixAt(s, i, PolicyPrefixes[q])
      {
        assert Lower(s[i + 0]) != Lower(PolicyPrefixes[q][0]);
      }
    }
    PassIdentity(Policy, s);
  }

  /** The MRN rule cannot match where no character is an `m` in either case. */
  lemma NoMrnInitial(s: string)
    requires forall k :: 0 <= k < |s| ==> Lower(s[k]) != 'm'
    ensures Pass(Mrn, s) == s
  {
    forall i | 0 <= i < |s|
      ensures MatchAt(Mrn, s, i).None?
    {
      assert Lower(s[i + 0]) != Lower("mrn"[0]);
    }
    PassIdentity(Mrn, s);
  }

  // ---------------------------------------------------------------
  // Single rules
  // ---------------------------------------------------------------

  /** The date at index 5 of the birth-date line. */
  lemma BirthDateMatch(s: string)
    requires s == "Born 19-02-1981"
    ensures DateAt(s, 5) == Some(Hit(15, "[DATE-1981]"))
  {
    assert DigitsThenSep(s, 5, 2) && DigitsThenSep(s, 8, 2);
    assert DayMonthShape(s, 5, 11);
    assert WordStart(s, 5) && WordEnd(s, 15) && AllDigits(s[11..15]);
    DateComplete(s, 5, 15);
    assert s[11..15] == "1981";
    assert "[DATE-" + s[11..15] + "]" == "[DATE-1981]";
  }

  /** Date of birth: day and month masked, year kept. */
  lemma DateExample(s: string)
    requires s == "Born 19-02-1981"
    ensures Pass(DateKeepYear, s) == "Born [DATE-1981]"
  {
    assert forall p :: 0 <= p < 5 ==> !IsDigit(s[p]);
    NonDigitsCopied(DateKeepYear, s, 5);
    assert s[..5] == "Born ";
    BirthDateMasked(s);
    JoinedAs(s[..5], PassFrom(DateKeepYear, s, 5), "Born ", "[DATE-1981]", "Born [DATE-1981]");
  }

  /** Two pieces known by value join to the text they spell. */
  lemma JoinedAs(x: string, y: string, a: string, b: string, whole: string)
    requires x == a && y == b
    requires |a| <= |whole| && whole[..|a|] == a && whole[|a|..] == b
    ensures x + y == whole
  {
    assert whole == whole[..|a|] + whole[|a|..];
  }

  lemma BirthDateMasked(s: string)
    requires s == "Born 19-02-1981"
    ensures PassFrom(DateKeepYear, s, 5) == "[DATE-1981]"
  {
    BirthDateMatch(s);
    ReplaceStep(DateKeepYear, s, 5);
    assert PassFrom(DateKeepYear, s, 15) == "";
  }

  /**
   * The date rule is not idempotent: its own replacement still holds a
   * standalone four-digit year, which a second pass masks again.
   */
  lemma DateNotIdempotent(s: string, t: string)
    requires s == "1981" && t == "[DATE-1981]"
    ensures Pass(DateKeepYear, s) == t
    ensures Pass(DateKeepYear, t) == "[DATE-[DATE-1981]]"
  {
    DateAloneMasked(s, t);
    DateTagPrefix(t);
    DateTagYear(t);
    DateTagTail(t);
  }

  lemma DateAloneMasked(s: string, t: string)
    requires s == "1981" && t == "[DATE-1981]"
    ensures Pass(DateKeepYear, s) == t
  {
    assert DateShape(s, 0, 4);
    DateComplete(s, 0, 4);
    ReplaceStep(DateKeepYear, s, 0);
    assert "[DATE-" + s[0..4] + "]" == t;
    assert PassFrom(DateKeepYear, s, 4) == "";
  }

  lemma DateTagPrefix(t: string)
    requires t == "[DATE-1981]"
    ensures PassFrom(DateKeepYear, t, 0) == "[DATE-" + PassFrom(DateKeepYear, t, 6)
  {
    assert forall p :: 0 <= p < 6 ==> !IsDigit(t[p]);
    NonDigitsCopied(DateKeepYear, t, 6);
    assert t[..6] == "[DATE-";
  }

  lemma DateTagYear(t: string)
    requires t == "[DATE-1981]"
    ensures PassFrom(DateKeepYear, t, 6) == "[DATE-1981]" + PassFrom(DateKeepYear, t, 10)
  {
    assert DateShape(t, 6, 10);
    DateComplete(t, 6, 10);
    assert "[DATE-" + t[6..10] + "]" == "[DATE-1981]";
    ReplaceStep(DateKeepYear, t, 6);
  }

  lemma DateTagTail(t: string)
    requires t == "[DATE-1981]"
    ensures PassFrom(DateKeepYear, t, 10) == "]"
  {
    NonDigitNoMatch(DateKeepYear, t, 10);
    CopyRange(DateKeepYear, t, 10, 11);
    assert t[10..11] == "]";
    assert PassFrom(DateKeepYear, t, 11) == "";
  }

  /** A canonical SSN on its own is masked by the SSN rule. */
  lemma SsnAlone(s: string)
    requires s == "123-45-6789"
    ensures Pass(Ssn, s) == "[SSN]"
  {
    assert AllDigits(s[0..3]) && AllDigits(s[4..6]) && AllDigits(s[7..11]);
    assert SsnShape(s, 0, 11);
    SsnSpec(s, 0);
    ReplaceStep(Ssn, s, 0);
    assert PassFrom(Ssn, s, 11) == "";
  }

  lemma SsnYearMatch(s: string)
    requires s == "123-45-6789"
    ensures DateAt(s, 7) == Some(Hit(11, "[DATE-6789]"))
  {
    assert WordStart(s, 7) && WordEnd(s, 11) && AllDigits(s[7..11]);
    assert DateShape(s, 7, 11);
    DateComplete(s, 7, 11);
    assert s[7..11] == "6789";
    assert "[DATE-" + s[7..11] + "]" == "[DATE-6789]";
  }

  lemma SsnHeadNoDate(s: string)
    requires s == "123-45-6789"
    ensures forall p | 0 <= p < 7 :: MatchAt(DateKeepYear, s, p).None?
  {
    SsnRuns(s);
    SsnGroupsNoDate(s);
    forall p | 0 <= p < 7
      ensures MatchAt(DateKeepYear, s, p).None?
    {
      if p != 0 && p != 4 {
        if IsDigit(s[p]) {
          MidWordNoMatch(DateKeepYear, s, p);
        } else {
          NonDigitNoMatch(DateKeepYear, s, p);
        }
      }
    }
  }

  /** The digit groups of `123-45-6789` are three, two and four digits long. */
  lemma SsnRuns(s: string)
    requires s == "123-45-6789"
    ensures s[3] == '-' && s[6] == '-'
    ensures RunLen(s, 0) == 3 && RunLen(s, 4) == 2 && RunLen(s, 7) == 4
  {
    assert AllDigits(s[0..3]) && AllDigits(s[4..6]) && AllDigits(s[7..11]);
    RunLenExact(s, 0, 3);
    RunLenExact(s, 4, 6);
    RunLenExact(s, 7, 11);
  }

  /** Neither the first nor the second group of an SSN starts a date: `ddd` is no day, and `dd-dddd` has no second separator. */
  lemma SsnGroupsNoDate(s: string)
    requires |s| == 11 && s[3] == '-' && s[6] == '-'
    requires RunLen(s, 0) == 3 && RunLen(s, 4) == 2 && RunLen(s, 7) == 4
    ensures DateAt(s, 0).None? && DateAt(s, 4).None?
  {
    assert DayMonthPart(s, 0).None?;
    assert DayMonthPart(s, 4) == Some(7);
    assert DayMonthPart(s, 7).None?;
  }

  /** The date rule, which runs earlier, reads the SSN's last group as a bare year. */
  lemma DateTakesSsnYear(s: string)
    requires s == "123-45-6789"
    ensures Pass(DateKeepYear, s) == "123-45-[DATE-6789]"
  {
    SsnHeadNoDate(s);
    CopyRange(DateKeepYear, s, 0, 7);
    SsnYearMatch(s);
    ReplaceStep(DateKeepYear, s, 7);
    assert PassFrom(DateKeepYear, s, 11) == "";
    assert s[0..7] == "123-45-";
  }

  /** Once the date rule has rewritten it, the SSN rule no longer sees an SSN. */
  lemma SsnMissedAfterDate(d: string)
    requires d == "123-45-[DATE-6789]"
    ensures Pass(Ssn, d) == d
  {
    forall i | 0 <= i < |d|
      ensures MatchAt(Ssn, d, i).None?
    {
      if i + 11 <= |d| {
        if i == 0 {
          assert RunLen(d, 7) == 0;
        } else if i == 3 {
          assert RunLen(d, 3) == 0;
        } else {
          assert d[i + 3] != '-';
        }
      }
    }
    PassIdentity(Ssn, d);
  }

  /** ZIP code: the first three digits survive. */
  lemma ZipExample(s: string)
    requires s == "mail to 90210"
    ensures Pass(Zip, s) == "mail to 902[ZIP]"
  {
    assert forall p :: 0 <= p < 8 ==> !IsDigit(s[p]);
    NonDigitsCopied(Zip, s, 8);
    assert s[..8] == "mail to ";
    ZipMasked(s);
  }

  lemma ZipMasked(s: string)
    requires s == "mail to 90210"
    ensures PassFrom(Zip, s, 8) == "902[ZIP]"
  {
    assert StandaloneRun(s, 8, 13);
    ZipSpec(s, 8);
    ReplaceStep(Zip, s, 8);
    assert PassFrom(Zip, s, 13) == "";
    assert s[8..11] == "902";
  }

  /** The policy rule masks a policy number whatever the case of its prefix. */
  lemma PolicyExample(s: string, t: string)
    requires s == "POL-12345678" && t == "pol-1234"
    ensures Pass(Policy, s) == "[POLICY_ID]"
    ensures Pass(Policy, t) == "[POLICY_ID]"
  {
    assert HasPrefixAt(s, 0, "pol") && AllDigits(s[4..12]);
    PolicyMasked(s);
    assert HasPrefixAt(t, 0, "pol") && AllDigits(t[4..8]);
    PolicyMasked(t);
  }

  /** A whole text `pol-` (any case) followed by 4-10 digits is one policy match. */
  lemma PolicyMasked(s: string)
    requires 8 <= |s| <= 14 && HasPrefixAt(s, 0, "pol") && s[3] == '-' && AllDigits(s[4..])
    ensures Pass(Policy, s) == "[POLICY_ID]"
  {
    var e := |s|;
    assert s[4..e] == s[4..];
    assert PolicyDigits(s, 4, e);
    assert PrefixThenTail(s, 0, "pol", e);
    assert PolicyShape(s, 0, e);
    PolicyComplete(s, 0, e);
    ReplaceStep(Policy, s, 0);
    assert PassFrom(Policy, s, e) == "";
  }

  lemma PolicyPrefixCopied(r: SimpleRule, s: string)
    requires s == "POL-12345678" && r != Policy && r != Mrn
    ensures PassFrom(r, s, 0) == "POL-" + PassFrom(r, s, 4)
  {
    assert forall p :: 0 <= p < 4 ==> !IsDigit(s[p]);
    NonDigitsCopied(r, s, 4);
    assert s[..4] == "POL-";
  }

  lemma BankAccountOnDigits(s: string)
    requires s == "POL-12345678"
    ensures PassFrom(BankAccount, s, 4) == "[BANK_ACCOUNT]"
  {
    assert BankAccountAt("POL-12345678", 4) == Some(Hit(12, "[BANK_ACCOUNT]"));
    ReplaceStep(BankAccount, s, 4);
    assert PassFrom(BankAccount, s, 12) == "";
  }

  /** Had the bank-account rule seen the policy number first, it would have kept the prefix. */
  lemma BankAccountOnPolicyNumber(s: string)
    requires s == "POL-12345678"
    ensures Pass(BankAccount, s) == "POL-[BANK_ACCOUNT]"
  {
    PolicyPrefixCopied(BankAccount, s);
    BankAccountOnDigits(s);
  }

  /** A digit-free text passes through the whole table when the opaque rules leave it alone. */
  lemma DigitFreeFold(rules: seq<Rule>, s: string, other: OpaqueSub)
    requires forall k :: 0 <= k < |s| ==> !IsDigit(s[k])
    requires forall o :: other(o, s) == s
    ensures ApplyRules(rules, s, other) == s
  {
    forall k | 0 <= k < |rules|
      ensures ApplyRule(rules[k], s, other) == s
    {
      if rules[k].Simple? {
        DigitFreeUnchanged(rules[k].simple, s);
      }
    }
    FoldFixed(rules, s, other);
  }

  /**
   * Whole table when the policy rule leaves a digit-free text that the
   * opaque rules keep: no later rule changes anything.
   */
  lemma TableAfterPolicy(s: string, other: OpaqueSub)
    requires forall k :: 0 <= k < |Pass(Policy, s)| ==> !IsDigit(Pass(Policy, s)[k])
    requires forall o :: other(o, Pass(Policy, s)) == Pass(Policy, s)
    ensures ApplyRules(RuleTable, s, other) == Pass(Policy, s)
  {
    var t := Pass(Policy, s);
    assert RuleTable == [Simple(Policy)] + RuleTable[1..];
    ApplyRulesSplit([Simple(Policy)], RuleTable[1..], s, other);
    assert ApplyRules([Simple(Policy)], s, other) == t;
    DigitFreeFold(RuleTable[1..], t, other);
  }

  /**
   * The policy rule runs first, so a policy number becomes `[POLICY_ID]`
   * before the bank-account rule could claim its digits.
   */
  lemma PolicyRunsFirst(s: string, other: OpaqueSub)
    requires s == "POL-12345678"
    requires forall o :: other(o, "[POLICY_ID]") == "[POLICY_ID]"
    ensures ApplyRules(RuleTable, s, other) == "[POLICY_ID]"
  {
    PolicyExample(s, "pol-1234");
    var t := "[POLICY_ID]";
    assert forall k :: 0 <= k < |t| ==> !IsDigit(t[k]);
    TableAfterPolicy(s, other);
  }

  lemma SsnHeadFixed(s: string, other: OpaqueSub)
    requires s == "123-45-6789"
    requires forall o :: other(o, s) == s
    ensures ApplyRules(RuleTable[..4], s, other) == s
  {
    forall k | 0 <= k < 4
      ensures ApplyRule(RuleTable[..4][k], s, other) == s
    {
      if k == 0 {
        SsnNoPolicy(s);
      }
    }
    FoldFixed(RuleTable[..4], s, other);
  }

  lemma SsnNoPolicy(s: string)
    requires s == "123-45-6789"
    ensures Pass(Policy, s) == s
  {
    assert forall k :: 0 <= k < |s| ==> IsDigit(s[k]) || s[k] == '-';
    NoPolicyInitial(s);
  }

  lemma ShortRunNoMatch(r: SimpleRule, s: string, p: nat)
    requires r == Zip || r == BankAccount || r == NumFallback
    requires p < |s| && RunLen(s, p) < 5
    ensures MatchAt(r, s, p).None?
  {
    assert StandaloneLen(s, p) < 5;
  }

  /** Text whose digit runs are all shorter than five is untouched by the rules that need five or more. */
  lemma ShortRunsUntouched(r: SimpleRule, s: string)
    requires r == Zip || r == BankAccount || r == NumFallback
    requires forall i :: 0 <= i < |s| ==> RunLen(s, i) < 5
    ensures Pass(r, s) == s
  {
    forall p | 0 <= p < |s|
      ensures MatchAt(r, s, p).None?
    {
      ShortRunNoMatch(r, s, p);
    }
    PassIdentity(r, s);
  }

  lemma MaskedSsnShortRuns(d: string)
    requires d == "123-45-[DATE-6789]"
    ensures forall i :: 0 <= i < |d| ==> RunLen(d, i) < 5
  {
    forall i | 0 <= i < |d|
      ensures RunLen(d, i) < 5
    {
      var k := if i <= 3 then 3 else if i <= 6 then 6 else if i <= 12 then i else 17;
      assert !IsDigit(d[k]);
      RunLenStops(d, i, k);
    }
  }

  /** The date-masked SSN is a fixed point of every concrete rule after the date rule. */
  lemma MaskedSsnStable(d: string)
    requires d == "123-45-[DATE-6789]"
    ensures Pass(Zip, d) == d && Pass(Ssn, d) == d && Pass(Mrn, d) == d
    ensures Pass(BankAccount, d) == d && Pass(NumFallback, d) == d
  {
    SsnMissedAfterDate(d);
    NoMrnInitial(d);
    MaskedSsnShortRuns(d);
    ShortRunsUntouched(Zip, d);
    ShortRunsUntouched(BankAccount, d);
    ShortRunsUntouched(NumFallback, d);
  }

  lemma SsnTailFixed(d: string, other: OpaqueSub)
    requires d == "123-45-[DATE-6789]"
    requires forall o :: other(o, d) == d
    ensures ApplyRules(RuleTable[5..], d, other) == d
  {
    MaskedSsnStable(d);
    forall k | 0 <= k < |RuleTable[5..]|
      ensures ApplyRule(RuleTable[5..][k], d, other) == d
    {
    }
    FoldFixed(RuleTable[5..], d, other);
  }

  /**
   * Whole table on a bare SSN: the date rule, earlier in the table, masks
   * the last group as a year, and the SSN rule then finds nothing to mask.
   */
  lemma SsnInTable(s: string, d: string, other: OpaqueSub)
    requires s == "123-45-6789" && d == "123-45-[DATE-6789]"
    requires forall o :: other(o, s) == s && other(o, d) == d
    ensures ApplyRules(RuleTable, s, other) == d
  {
    var head, tail := RuleTable[..4], RuleTable[5..];
    assert RuleTable == (head + [Simple(DateKeepYear)]) + tail;
    ApplyRulesSplit(head + [Simple(DateKeepYear)], tail, s, other);
    ApplyRulesSplit(head, [Simple(DateKeepYear)], s, other);
    SsnHeadFixed(s, other);
    DateTakesSsnYear(s);
    assert ApplyRules([Simple(DateKeepYear)], s, other) == d;
    SsnTailFixed(d, other);
  }
}
