# Insurance call transcripts: masking, clean-up and dashboard logic

This project is a Dafny model of the deterministic text logic in a small
pipeline for insurance call transcripts. The model covers three parts.

- **The regex masking stage** of `mask_insurance_transcript`
  (`LangChain/mask_insurance_transcript.py`).
  - An ordered table of seventeen (pattern, replacement) rules is applied with `re.sub(..., flags=re.IGNORECASE)`.
  - Each rule reads the text the previous rule produced.
  - In Dafny, `Masking.RuleTable` is an explicit sequence in the dictionary's order, and `Masking.ApplyRules` folds it from the left.
  - Seven rules reduce to scanners over ASCII digit runs, and their matchers are written out: policy, date-keep-year, ZIP, SSN, MRN, bank account and the numeric fallback.
  - One `re.sub` pass is `Masking.PassFrom`. It replaces the leftmost match, resumes after it, and copies every other character. The `\b` look-behind reads the pass's input, not the replacement text.
  - The other ten rules (phone, e-mail, doctor, IP, card, vehicle, passport, driver's licence, URL, MAC) depend on regex backtracking over character classes. They stay uninterpreted: the caller passes what they do as a function `other`.
  - The Presidio entity recogniser that runs before the table is a parameter `presidio: string -> string`.
- **The post-masking clean-up** in `LangChain/pipe.py`.
  - `preprocess_text` is `Pipe.Preprocess`: whitespace runs collapse to one space, then the ends are stripped.
  - `normalize_placeholders` is `Placeholders.Normalize`: six literal replace-all steps in a fixed order.
- **The dashboard logic** in `LangChain/app_csv.py`.
  - The required-column check and the sidebar row filter (`RowFilter`).
  - The clean-up of a model reply (`Reply`): fence stripping, dropping `E0000` lines, and taking the text from the first `{` to the last `}`.
  - The two analysis paths, one call and a batch over all filtered rows (`Analysis`).
  - The language model's replies and `json.loads` are parameters. `parse` returns `None` where `json.loads` would raise.

Characters are ASCII-classified throughout:
- a digit is `0`-`9`;
- a word character is `[A-Za-z0-9_]`;
- whitespace is a space, codes 9-13 and codes 28-31, which are the ASCII characters Python's `str.isspace` accepts;
- `'\n'` is the only line break.

Matching "ignoring case" means ASCII lower-casing.

Behaviour of the code as written that the model reproduces, with proofs:
- The date rule runs before the SSN rule. It turns the last four digits of `123-45-6789` into `[DATE-6789]`, and the SSN rule never sees a canonical SSN (`MaskingExamples.SsnInTable`).
- The masking pass is not idempotent: `[DATE-1981]` becomes `[DATE-[DATE-1981]]` (`MaskingExamples.DateNotIdempotent`).
- The `datetime` step of `normalize_placeholders` can produce the literal it removes: `datetimetime` becomes `the datetime`. So absence is promised only for the five bracketed placeholders (`Placeholders.DatetimeRecreated`).
- The batch path applies no `E0000` filter. A diagnostic line holding a `{` in front of the JSON line makes the two paths extract different spans (`Analysis.PathsDisagree`).

## Model

| member | source | states |
|---|---|---|
| MaskingFold.ApplyRulesSplit | LangChain/mask_insurance_transcript.py:66-67 | Running the table is a left fold: running `a + b` is running `b` on the output of `a`. |
| MaskingFold.CopyRange | LangChain/mask_insurance_transcript.py:66-67 | Within one pass, a stretch where the rule matches nowhere is copied unchanged into the output, followed by the rest of the pass. |
| MaskingFold.PassIdentity | LangChain/mask_insurance_transcript.py:66-67 | A pass over a text where the rule matches at no position returns the text unchanged. |
| MaskingFold.NumAtSpec | LangChain/mask_insurance_transcript.py:63 | The fallback matches at `i` with end `e` exactly when `s[i..e]` is a standalone digit run of length at least 5, and it writes `[NUM]`. |
| MaskingFold.NumFallbackLeavesNoLongRun | LangChain/mask_insurance_transcript.py:63 | After the fallback pass, the text contains no standalone run of five or more digits. |
| MaskingFold.NumFallbackIdempotent | LangChain/mask_insurance_transcript.py:63 | Running the fallback pass twice gives the same text as running it once. |
| MaskingFold.MaskLeavesNoLongRun | LangChain/mask_insurance_transcript.py:9-68 | Whatever Presidio and the opaque rules do, the masked transcript contains no standalone run of five or more digits, because the fallback rule is last. |
| MaskingRules.PolicySpec | LangChain/mask_insurance_transcript.py:31 | The policy matcher finds a match at `i` iff a word boundary precedes `i` and, ignoring case, one of POL, CLM, CLAIM, POLICY, ACCT follows, then an optional `-` or `_`, then 4-10 digits and a word boundary. The match ends at the unique such end and writes `[POLICY_ID]`. |
| MaskingRules.PolicyPassIgnoresCase | LangChain/mask_insurance_transcript.py:31-67 | Two texts that differ only in letter case give policy-pass outputs that differ only in letter case. |
| MaskingRules.DateSpec | LangChain/mask_insurance_transcript.py:38-39 | The date matcher matches exactly a standalone four-digit year, optionally preceded by `d{1,2}[-/]d{1,2}[-/]`. It writes `[DATE-` followed by those same four digits and `]`. |
| MaskingRules.ZipSpec | LangChain/mask_insurance_transcript.py:40-41 | The ZIP matcher matches exactly a standalone run of 5-7 digits and writes its first three digits followed by `[ZIP]`. |
| MaskingRules.SsnSpec | LangChain/mask_insurance_transcript.py:47 | The SSN matcher matches exactly a standalone `ddd-dd-dddd` and writes `[SSN]`. |
| MaskingRules.MrnSpec | LangChain/mask_insurance_transcript.py:51 | The MRN matcher matches exactly `MRN`, ignoring case, after a word boundary, followed by 3-10 digits and a word boundary. It writes `[MRN]`. |
| MaskingRules.BankAccountSpec | LangChain/mask_insurance_transcript.py:57 | The bank-account matcher matches at `i` with end `e` iff `s[i..e]` is a standalone run of 8-20 digits, and it writes `[BANK_ACCOUNT]`. |
| MaskingExamples.MidWordNoMatch | LangChain/mask_insurance_transcript.py:31-63 | No implemented rule matches right after a word character: every one starts with `\b`. |
| MaskingExamples.DigitFreeUnchanged | LangChain/mask_insurance_transcript.py:31-63 | Every implemented rule needs a digit, so each one leaves a text without digits unchanged. |
| MaskingExamples.ShortRunsUntouched | LangChain/mask_insurance_transcript.py:41-63 | The ZIP, bank-account and fallback passes leave unchanged a text whose digit runs are all shorter than five. |
| MaskingExamples.PolicyExample | LangChain/mask_insurance_transcript.py:31 | `POL-12345678` and `pol-1234` both become `[POLICY_ID]`. |
| MaskingExamples.PolicyRunsFirst | LangChain/mask_insurance_transcript.py:29-67 | The whole table turns `POL-12345678` into `[POLICY_ID]`: the policy rule runs before any numeric rule sees the digits. |
| MaskingExamples.BankAccountOnPolicyNumber | LangChain/mask_insurance_transcript.py:57 | Applied alone, the bank-account rule would turn `POL-12345678` into `POL-[BANK_ACCOUNT]`, so the table order matters. |
| MaskingExamples.TableAfterPolicy | LangChain/mask_insurance_transcript.py:29-67 | When the policy pass leaves no digit and the opaque rules leave its output alone, the whole table's result is the policy pass's result. |
| MaskingExamples.DigitFreeFold | LangChain/mask_insurance_transcript.py:66-67 | Any sequence of rules leaves unchanged a digit-free text that the opaque rules leave alone. |
| MaskingExamples.DateExample | LangChain/mask_insurance_transcript.py:38-39 | `Born 19-02-1981` becomes `Born [DATE-1981]`: the year is kept. |
| MaskingExamples.DateNotIdempotent | LangChain/mask_insurance_transcript.py:39 | The date pass turns `1981` into `[DATE-1981]`, and running it again gives `[DATE-[DATE-1981]]`. |
| MaskingExamples.ZipExample | LangChain/mask_insurance_transcript.py:40-41 | `mail to 90210` becomes `mail to 902[ZIP]`. |
| MaskingExamples.DateTakesSsnYear | LangChain/mask_insurance_transcript.py:39 | The date pass turns `123-45-6789` into `123-45-[DATE-6789]`. |
| MaskingExamples.SsnMissedAfterDate | LangChain/mask_insurance_transcript.py:47 | The SSN pass leaves `123-45-[DATE-6789]` unchanged. |
| MaskingExamples.MaskedSsnStable | LangChain/mask_insurance_transcript.py:41-63 | The ZIP, SSN, MRN, bank-account and fallback passes all leave `123-45-[DATE-6789]` unchanged. |
| MaskingExamples.SsnInTable | LangChain/mask_insurance_transcript.py:29-67 | With opaque rules that leave both texts alone, the whole table turns `123-45-6789` into `123-45-[DATE-6789]`, never `[SSN]`. |
| Text.Strip | LangChain/pipe.py:10 | `str.strip()`: the result has no whitespace at either end, it is a slice of the input with only whitespace around it, and an input already without outer whitespace is returned as is. |
| Text.StripUnique | LangChain/pipe.py:10 | Any slice that has only whitespace around it and none at its own ends is the stripped text. |
| Pipe.Preprocess | LangChain/pipe.py:5-11 | The output has no whitespace at either end. Its only whitespace character is `' '`, no two whitespace characters are adjacent, and its non-whitespace characters are the input's, in order and unchanged (no lower-casing, no punctuation removal). |
| Pipe.CollapseKeepsNonSpace | LangChain/pipe.py:9 | Collapsing whitespace runs keeps every non-whitespace character in order. |
| Pipe.PreprocessIdempotent | LangChain/pipe.py:9-10 | Preprocessing preprocessed text changes nothing. |
| Pipe.PreprocessIsSplitJoin | LangChain/pipe.py:9-10 | Preprocessing equals the independent reference `" ".join(s.split())`. |
| Placeholders.ReplaceLeftmost | LangChain/pipe.py:18-23 | `str.replace` replaces the leftmost occurrence of the pattern by the replacement, keeps the text before it, and carries on after the occurrence. |
| Placeholders.LeftmostSplit | LangChain/pipe.py:18-23 | Every text containing the pattern has a leftmost occurrence with no occurrence before it, so the leftmost law and the identity on texts without the pattern fix the result of `str.replace` on every input. |
| Placeholders.ReplaceRemoves | LangChain/pipe.py:18-23 | When no character of the replacement appears in the pattern, no occurrence of the pattern is left after replacing. |
| Placeholders.ReplaceKeepsAbsent | LangChain/pipe.py:18-23 | A literal sharing no character with the replacement occurs after replacing only if it occurred before. |
| Placeholders.StepsIdentity | LangChain/pipe.py:18-23 | Replace steps whose literals all do not occur leave the text unchanged. |
| Placeholders.StepTokenGone | LangChain/pipe.py:18-23 | After all six steps, none of the bracketed literals is left, including those replaced by earlier steps. |
| Placeholders.Normalize | LangChain/pipe.py:13-24 | The output is `str.replace` applied six times in order: `[PERSON]` by `the customer`, `[ORG]` by `the hospital`, `[PHONE]` by `the phone number`, `[EMAIL]` by `the email address`, `datetime` by `the date`, `[POLICY_ID]` by `the policy`. A text in which none of the six literals occurs is returned unchanged, and the output contains none of the five bracketed placeholders. |
| Placeholders.NormalizePerson | LangChain/pipe.py:18 | In a text without brackets and without `datetime`, a `[PERSON]` placeholder becomes `the customer` and every other character stays where it was. |
| Placeholders.DatetimeRecreated | LangChain/pipe.py:22 | `datetimetime` normalises to `the datetime`, which still contains `datetime`. |
| RowFilter.Load | LangChain/app_csv.py:27-30 | The upload is accepted iff all five required columns are present, and then the rows are passed on unchanged. |
| RowFilter.LocIsKeep | LangChain/app_csv.py:52 | `df.loc[mask]` with a mask computed row by row from a predicate keeps exactly the rows satisfying it, in order. |
| RowFilter.ApplyFiltersIsKeep | LangChain/app_csv.py:46-54 | The pandas mask-and-keyword evaluation equals keeping the rows that satisfy the single per-row reference predicate `Selected`. |
| RowFilter.FilterSpec | LangChain/app_csv.py:46-54 | The filtered rows are a subsequence of the input in order. A row is shown iff its date parsed and lies in the inclusive range, each non-empty multiselect contains its reason, and a non-empty keyword occurs in its transcript ignoring case. |
| RowFilter.FilterDropsMissing | LangChain/app_csv.py:32-54 | Rows whose date did not parse are never shown. With a non-empty keyword, rows without a transcript are never shown. |
| Reply.StripFencesIsPerLine | LangChain/app_csv.py:94 | The multi-line `re.sub` of the fences equals an independent per-line reference: split into lines, strip each line, join again. |
| Reply.StripFenceLineShape | LangChain/app_csv.py:94 | Each line loses at most a leading "```json" and at most a trailing "```", and nothing else. |
| Reply.NoBacktickUnchanged | LangChain/app_csv.py:94 | A reply without a backtick is unchanged by the fence substitution. |
| Reply.SplitJoin | LangChain/app_csv.py:95-96 | Joining the split lines with newlines gives the text back, and no line holds a newline. |
| Reply.JoinSplit | LangChain/app_csv.py:95-96 | Splitting joined newline-free lines gives the lines back. |
| Reply.SplitLinesJoin | LangChain/app_csv.py:96 | `splitlines` yields newline-free lines that rejoin to the text, less one final newline. |
| Reply.DropDiagnosticsSpec | LangChain/app_csv.py:95-97 | The kept lines are a subsequence of the input lines, a line of the input is kept iff it does not start with `E0000` once stripped, and each kept line appears exactly as many times as in the input. |
| Reply.DropNone | LangChain/app_csv.py:96 | When no line is a diagnostic, dropping diagnostic lines keeps every line. |
| Reply.Block | LangChain/app_csv.py:98 | `\{[\s\S]*\}` matches iff some `}` follows some `{`. The match is a `{`..`}` slice with no `{` before it and no `}` after it, so it runs from the first `{` to the last `}`. |
| Reply.FindBlock | LangChain/app_csv.py:98 | The two-scan search computes the same span as the reference `Block`. |
| Analysis.AnalyzeOne | LangChain/app_csv.py:91-104 | The single-call path stops with "no JSON" iff the cleaned reply has no `{` with a `}` after it. Otherwise the result is decided by the span from the cleaned reply's first `{` to its last `}`: it succeeds with the parsed value iff that span parses, and fails with a parse error otherwise. |
| Analysis.FencedClean | LangChain/app_csv.py:94-97 | A JSON line between a "```json" line and a "```" line is cleaned to exactly the JSON line. |
| Analysis.FencedReply | LangChain/app_csv.py:94-104 | For such a fenced reply, the single-call result is the parse of the JSON line, or a parse error. |
| Analysis.NoisyClean | LangChain/app_csv.py:95-97 | A diagnostic `E0000…` line in front of the JSON line is dropped by the single-call clean-up. |
| Analysis.PathsDisagree | LangChain/app_csv.py:94-140 | For that reply, the single call extracts the JSON line alone. The batch path keeps the diagnostic line, so its span starts at the diagnostic's first `{` and is strictly longer. |
| Analysis.PathsAgree | LangChain/app_csv.py:94-140 | When the batch clean-up leaves no diagnostic line, both paths clean the reply to the same text and extract the same span. |
| Analysis.FindSpans | LangChain/app_csv.py:123-140 | Searching each reply, cleaned without dropping lines, with the two-scan search gives for every reply the reference span of its batch clean-up. |
| Analysis.SpanIndicesFrom | LangChain/app_csv.py:141 | The positions of the replies that have a span: all in range, strictly increasing, and every reply with a span is among them. |
| Analysis.Collect | LangChain/app_csv.py:123-145 | The batch loop fails only with a parse error and yields at most one result per row. |
| Analysis.CollectAll | LangChain/app_csv.py:123-145 | The imperative loop, accumulating into `all_results`, computes the same result as the recursive reference. |
| Analysis.AnalyzeAll | LangChain/app_csv.py:123-145 | The batch fails iff some reply has a span that does not parse. Otherwise it yields, in row order, exactly one result per reply with a span: the parse of that span, tagged with its row's date and primary reason. |
| Analysis.CollectFailsIff | LangChain/app_csv.py:140-142 | The loop fails iff some row has a span that does not parse. |
| Analysis.BatchFailsIff | LangChain/app_csv.py:138-142 | The batch fails iff some reply's batch span exists but does not parse. |
| Analysis.CollectResults | LangChain/app_csv.py:141-145 | On success the `m`-th result belongs to the `m`-th row that has a span, and there is one result per such row: it is the parse of that row's span and carries that row's date and primary reason. |
| Analysis.BatchResults | LangChain/app_csv.py:123-145 | On success the `m`-th result comes from the `m`-th reply that has a span: it is the parse of that span and carries its row's date and primary reason. Rows without a span are skipped silently. |

## Left out

- Presidio (`LangChain/mask_insurance_transcript.py:2-7, 13-26`) is a foreign NER library. It is the parameter `presidio` of `Masking.MaskTranscript`.
- The phone, e-mail, doctor, IP, card, vehicle, passport, driver's-licence, URL and MAC rules (lines 33-61, odd lines) are uninterpreted functions of the rule and the text. Their regexes rely on backtracking over character classes and lazy quantifiers. Properties about the whole table assume nothing about them, or state as a precondition what they do on a given text.
- The Unicode meaning of Python's `\d`, `\s`, `\b`, `str.isspace`, `str.strip` and `str.splitlines` is not modelled: characters are classified as ASCII, and `'\n'` is the only line break.
- Only the case-insensitive matching that the implemented rules need is modelled, and it is ASCII-only.
- The pandas keyword search (`LangChain/app_csv.py:54`) treats the keyword as a regular expression. It is modelled as an ASCII case-insensitive literal substring search, which agrees for keywords without regex metacharacters.
- `pd.to_datetime` (`LangChain/app_csv.py:32`) is not modelled. Dates are day numbers, with `NaT` for a cell that did not parse, and `date_input`'s range bounds are two day numbers.
- The one-date case of `st.date_input` is not modelled. While the user picks the second date, it can return one date, and `date_range[1]` then raises.
- The Streamlit UI, file upload, charts and the Gemini calls (`LangChain/app_csv.py:17-25, 37-44, 56-90, 105-121, 147-164`) are left out. The model's reply for each call is an input.
- `json.loads` is the abstract partial function `parse`. In the single-call path a parse failure is the error `BadJson`, since the script raises there. In the batch path it aborts the whole run, for the same reason.
- `Analysis.Tagged` adds the row's date and primary reason next to the parsed result (`LangChain/app_csv.py:143-144`). The model does not overwrite keys `date` and `primary_reason` inside the parsed JSON object, because that object is abstract.
- `summarize_text` and the `main` demo (`LangChain/pipe.py:26-82`) call a Hugging Face model and print, so they are left out.
- `LangChain/call_dashboard_app.py` is not part of this model. It is Snowflake connection code plus copies of the filter and brace-extraction logic modelled here. Its line 96 uses `re` without importing it.
- Placeholders.Normalize: absence after normalising is stated only for the five bracketed placeholders, because the `datetime` step can recreate `datetime` (see `Placeholders.DatetimeRecreated`).
