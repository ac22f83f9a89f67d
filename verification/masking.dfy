/**
 * The regular-expression stage of `mask_insurance_transcript`: a fixed,
 * ordered table of seventeen (pattern, replacement) rules, applied one after
 * another with `re.sub(..., flags=re.IGNORECASE)`, each rule reading the text
 * the previous rule produced.
 *
 * Seven rules reduce to scans over digit runs and are modelled exactly
 * (`SimpleRule`). The other ten depend on backtracking over character
 * classes and stay uninterpreted (`OpaqueRule`): the caller supplies what
 * they do as a function. The Presidio analyzer/anonymizer that runs before
 * the table is a foreign library and is likewise a parameter.
 */
module Masking {
  import opened Wrappers
  import opened Text

  /** Rules whose matches are computed here. */
  datatype SimpleRule =
    | Policy        // \b(POL|CLM|CLAIM|POLICY|ACCT)[-_]?\d{4,10}\b  -> [POLICY_ID]
    | DateKeepYear  // \b(\d{1,2}[-/]\d{1,2}[-/])?(\d{4})\b         -> [DATE-<year>]
    | Zip           // \b(\d{3})\d{2,4}\b                           -> <first three>[ZIP]
    | Ssn           // \b\d{3}-\d{2}-\d{4}\b                        -> [SSN]
    | Mrn           // \bMRN\d{3,10}\b                              -> [MRN]
    | BankAccount   // \b\d{8,20}\b                                 -> [BANK_ACCOUNT]
    | NumFallback   // \b\d{5,}\b                                   -> [NUM]

  /** Rules left uninterpreted. */
  datatype OpaqueRule =
    | Phone | Email | DoctorName | IpAddress | Card
    | Vehicle | Passport | DriversLicense | Url | Mac

  datatype Rule = Simple(simple: SimpleRule) | Opaque(kind: OpaqueRule)

  /** What each opaque rule does to a text. */
  type OpaqueSub = (OpaqueRule, string) -> string

  /** The rule table in the order the source dictionary lists it. */
  const RuleTable: seq<Rule> := [
    Simple(Policy),
    Opaque(Phone),
    Opaque(Email),
    Opaque(DoctorName),
    Simple(DateKeepYear),
    Simple(Zip),
    Opaque(IpAddress),
    Opaque(Card),
    Simple(Ssn),
    Opaque(Vehicle),
    Simple(Mrn),
    Opaque(Passport),
    Opaque(DriversLicense),
    Simple(BankAccount),
    Opaque(Url),
    Opaque(Mac),
    Simple(NumFallback)
  ]

  /** One match of a rule: where it ends and the text that replaces it. */
  datatype Hit = Hit(end: nat, text: string)

  /** A well-formed match starting at `i` consumes at least one character of `s`. */
  predicate Advances(h: Option<Hit>, s: string, i: nat) {
    h.Some? ==> i < h.value.end <= |s|
  }

  // ---------------------------------------------------------------
  // Matchers: the match (if any) each rule's regex finds at index i
  // ---------------------------------------------------------------

  /** Length of the standalone digit run at `i`, or 0 when the run is not standalone. */
  function StandaloneLen(s: string, i: nat): nat
    requires i <= |s|
  {
    var n := RunLen(s, i);
    if WordStart(s, i) && WordEnd(s, i + n) then n else 0
  }

  /** The alternatives of the policy prefix group, in the order the regex tries them. */
  const PolicyPrefixes: seq<string> := ["pol", "clm", "claim", "policy", "acct"]

  /** The rest of the policy rule after a prefix ending at `j`: `[-_]?\d{4,10}\b`. */
  function PolicyTail(s: string, j: nat): (e: Option<nat>)
    requires j <= |s|
    ensures e.Some? ==> j < e.value <= |s|
  {
    var k := if j < |s| && (s[j] == '-' || s[j] == '_') then j + 1 else j;
    var n := RunLen(s, k);
    if 4 <= n <= 10 && WordEnd(s, k + n) then Some(k + n) else None
  }

  /** Try the prefix alternatives from the `p`-th on. */
  function PolicyFrom(s: string, i: nat, p: nat): (h: Option<Hit>)
    requires i <= |s|
    ensures Advances(h, s, i)
    decreases |PolicyPrefixes| - p
  {
    if p >= |PolicyPrefixes| then None
    else if HasPrefixAt(s, i, PolicyPrefixes[p]) && PolicyTail(s, i + |PolicyPrefixes[p]|).Some? then
      Some(Hit(PolicyTail(s, i + |PolicyPrefixes[p]|).value, "[POLICY_ID]"))
    else PolicyFrom(s, i, p + 1)
  }

  function PolicyAt(s: string, i: nat): (h: Option<Hit>)
    requires i <= |s|
    ensures Advances(h, s, i)
  {
    if WordStart(s, i) then PolicyFrom(s, i, 0) else None
  }

  predicate IsDateSep(c: char) { c == '-' || c == '/' }

  /** `(\d{4})\b` at `y`, replaced by `[DATE-<those four digits>]`. */
  function YearAt(s: string, y: nat): (h: Option<Hit>)
    requires y <= |s|
    ensures Advances(h, s, y)
  {
    if RunLen(s, y) == 4 && WordEnd(s, y + 4) then Some(Hit(y + 4, "[DATE-" + s[y..y + 4] + "]"))
    else None
  }

  /** `\d{1,2}[-/]` at `i`: the index after the separator. */
  function DayMonthPart(s: string, i: nat): (j: Option<nat>)
    requires i <= |s|
    ensures j.Some? ==> i + 2 <= j.value <= i + 3 && j.value <= |s|
  {
    var a := RunLen(s, i);
    if 1 <= a <= 2 && i + a < |s| && IsDateSep(s[i + a]) then Some(i + a + 1) else None
  }

  /** The optional day-month group is tried first; without it, a bare four-digit year. */
  function DateAt(s: string, i: nat): (h: Option<Hit>)
    requires i <= |s|
    ensures Advances(h, s, i)
  {
    if !WordStart(s, i) then None
    else
      var first := DayMonthPart(s, i);
      var second := if first.Some? then DayMonthPart(s, first.value) else None;
      var grouped := if second.Some? then YearAt(s, second.value) else None;
      if grouped.Some? then grouped else YearAt(s, i)
  }

  function ZipAt(s: string, i: nat): (h: Option<Hit>)
    requires i <= |s|
    ensures Advances(h, s, i)
  {
    var n := StandaloneLen(s, i);
    if 5 <= n <= 7 then Some(Hit(i + n, s[i..i + 3] + "[ZIP]")) else None
  }

  function SsnAt(s: string, i: nat): (h: Option<Hit>)
    requires i <= |s|
    ensures Advances(h, s, i)
  {
    if WordStart(s, i) && i + 11 <= |s| && RunLen(s, i) == 3 && s[i + 3] == '-'
       && RunLen(s, i + 4) == 2 && s[i + 6] == '-' && RunLen(s, i + 7) >= 4 && WordEnd(s, i + 11)
    then Some(Hit(i + 11, "[SSN]"))
    else None
  }

  function MrnAt(s: string, i: nat): (h: Option<Hit>)
    requires i <= |s|
    ensures Advances(h, s, i)
  {
    if WordStart(s, i) && HasPrefixAt(s, i, "mrn") then
      var n := RunLen(s, i + 3);
      if 3 <= n <= 10 && WordEnd(s, i + 3 + n) then Some(Hit(i + 3 + n, "[MRN]")) else None
    else None
  }

  function BankAccountAt(s: string, i: nat): (h: Option<Hit>)
    requires i <= |s|
    ensures Advances(h, s, i)
  {
    var n := StandaloneLen(s, i);
    if 8 <= n <= 20 then Some(Hit(i + n, "[BANK_ACCOUNT]")) else None
  }

  function NumAt(s: string, i: nat): (h: Option<Hit>)
    requires i <= |s|
    ensures Advances(h, s, i)
  {
    var n := StandaloneLen(s, i);
    if n >= 5 then Some(Hit(i + n, "[NUM]")) else None
  }

  function MatchAt(r: SimpleRule, s: string, i: nat): (h: Option<Hit>)
    requires i <= |s|
    ensures Advances(h, s, i)
  {
    match r
    case Policy => PolicyAt(s, i)
    case DateKeepYear => DateAt(s, i)
    case Zip => ZipAt(s, i)
    case Ssn => SsnAt(s, i)
    case Mrn => MrnAt(s, i)
    case BankAccount => BankAccountAt(s, i)
    case NumFallback => NumAt(s, i)
  }

  // ---------------------------------------------------------------
  // One re.sub pass and the fold over the table
  // ---------------------------------------------------------------

  /**
   * `re.sub` from index `i` on: the leftmost match is replaced and scanning
   * resumes after it; elsewhere one character is copied. Lookbehind for `\b`
   * reads the pass's input, never the replacement text.
   */
  function PassFrom(r: SimpleRule, s: string, i: nat): string
    requires i <= |s|
    decreases |s| - i
  {
    if i == |s| then ""
    else
      match MatchAt(r, s, i)
      case Some(h) => h.text + PassFrom(r, s, h.end)
      case None => [s[i]] + PassFrom(r, s, i + 1)
  }

  function Pass(r: SimpleRule, s: string): string {
    PassFrom(r, s, 0)
  }

  function ApplyRule(r: Rule, s: string, other: OpaqueSub): string {
    match r
    case Simple(k) => Pass(k, s)
    case Opaque(o) => other(o, s)
  }

  /** Left fold: each rule consumes the previous rule's output. */
  function ApplyRules(rules: seq<Rule>, s: string, other: OpaqueSub): string
    decreases |rules|
  {
    if rules == [] then s else ApplyRules(rules[1..], ApplyRule(rules[0], s, other), other)
  }

  /** `mask_insurance_transcript`: the entity recogniser, then the rule table. */
  function MaskTranscript(text: string, presidio: string -> string, other: OpaqueSub): string {
    ApplyRules(RuleTable, presidio(text), other)
  }
}
