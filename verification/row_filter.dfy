/**
 * The row-selection logic of the transcript dashboard: the required-column
 * check on the uploaded table and the sidebar filter (date range, reason
 * multiselects, keyword search), written the way pandas evaluates it.
 */
module RowFilter {
  import opened Wrappers
  import opened Text

  /** A `date` cell after `pd.to_datetime(..., errors="coerce")`: a day number, or `NaT` when it did not parse. */
  datatype Date = Day(n: int) | NaT

  /** One uploaded call; a missing transcript cell (NaN) is `None`. */
  datatype Row = Row(
    date: Date,
    primaryReason: string,
    subReason: string,
    reasonForInteraction: string,
    transcript: Option<string>)

  /** The sidebar state: inclusive date range, two multiselects and the keyword box. */
  datatype Filters = Filters(start: int, end: int, primary: seq<string>, sub: seq<string>, keyword: string)

  datatype LoadError = MissingColumns

  const RequiredColumns: set<string> :=
    {"date", "primary_reason", "sub_reason", "reason_for_interaction", "transcript"}

  /**
   * The upload is accepted only when every required column is present;
   * otherwise processing stops with an error.
   */
  function Load(columns: seq<string>, rows: seq<Row>): (r: Result<seq<Row>, LoadError>)
    ensures r.Success? <==> forall c :: c in RequiredColumns ==> c in columns
    ensures r.Success? ==> r.value == rows
  {
    if RequiredColumns <= set c | c in columns then Success(rows) else Failure(MissingColumns)
  }

  // ---------------------------------------------------------------
  // pandas building blocks
  // ---------------------------------------------------------------

  /** Comparisons with `NaT` are false, so an unparsed date is never in range. */
  predicate InRange(d: Date, start: int, end: int) {
    d.Day? && start <= d.n && d.n <= end
  }

  function DateMask(rows: seq<Row>, start: int, end: int): seq<bool> {
    seq(|rows|, i requires 0 <= i < |rows| => InRange(rows[i].date, start, end))
  }

  function PrimaryIn(rows: seq<Row>, choices: seq<string>): seq<bool> {
    seq(|rows|, i requires 0 <= i < |rows| => rows[i].primaryReason in choices)
  }

  function SubIn(rows: seq<Row>, choices: seq<string>): seq<bool> {
    seq(|rows|, i requires 0 <= i < |rows| => rows[i].subReason in choices)
  }

  /** `mask &= other`. */
  function AndMask(a: seq<bool>, b: seq<bool>): seq<bool>
    requires |a| == |b|
  {
    seq(|a|, i requires 0 <= i < |a| => a[i] && b[i])
  }

  /** ASCII case-insensitive substring search: `str.contains(keyword, case=False)` for a literal keyword. */
  predicate ContainsIgnoreCase(text: string, keyword: string) {
    Occurs(LowerStr(text), LowerStr(keyword))
  }

  /** `str.contains(keyword, case=False, na=False)`: a missing transcript does not match. */
  function KeywordMask(rows: seq<Row>, keyword: string): seq<bool> {
    seq(|rows|, i requires 0 <= i < |rows| =>
      rows[i].transcript.Some? && ContainsIgnoreCase(rows[i].transcript.value, keyword))
  }

  /** `df.loc[mask]`: the rows whose mask entry is true, in their original order. */
  function Loc(rows: seq<Row>, mask: seq<bool>): seq<Row>
    requires |mask| == |rows|
    decreases |rows|
  {
    if rows == [] then []
    else (if mask[0] then [rows[0]] else []) + Loc(rows[1..], mask[1..])
  }

  /** The filter exactly as the dashboard evaluates it. */
  function ApplyFilters(rows: seq<Row>, f: Filters): seq<Row> {
    var m0 := DateMask(rows, f.start, f.end);
    var m1 := if f.primary != [] then AndMask(m0, PrimaryIn(rows, f.primary)) else m0;
    var m2 := if f.sub != [] then AndMask(m1, SubIn(rows, f.sub)) else m1;
    var filtered := Loc(rows, m2);
    if f.keyword != [] then Loc(filtered, KeywordMask(filtered, f.keyword)) else filtered
  }

  // ---------------------------------------------------------------
  // Reference: one predicate per row
  // ---------------------------------------------------------------

  /** The date and multiselect part of the filter, which builds the mask. */
  predicate MaskSelected(r: Row, f: Filters) {
    && InRange(r.date, f.start, f.end)
    && (f.primary == [] || r.primaryReason in f.primary)
    && (f.sub == [] || r.subReason in f.sub)
  }

  /** The keyword part, applied to the rows the mask kept. */
  predicate KeywordSelected(r: Row, f: Filters) {
    f.keyword == [] || (r.transcript.Some? && ContainsIgnoreCase(r.transcript.value, f.keyword))
  }

  /**
   * A row is shown iff its date parsed and lies in the inclusive range,
   * each non-empty multiselect contains its reason, and a non-empty
   * keyword occurs, ignoring case, in a transcript that is present.
   */
  predicate Selected(r: Row, f: Filters) {
    MaskSelected(r, f) && KeywordSelected(r, f)
  }

  /** The rows satisfying `p`, in order. */
  function Keep(rows: seq<Row>, p: Row -> bool): seq<Row>
    decreases |rows|
  {
    if rows == [] then []
    else (if p(rows[0]) then [rows[0]] else []) + Keep(rows[1..], p)
  }

  lemma {:induction false} LocIsKeep(rows: seq<Row>, mask: seq<bool>, p: Row -> bool)
    requires |mask| == |rows|
    requires forall i :: 0 <= i < |rows| ==> mask[i] == p(rows[i])
    ensures Loc(rows, mask) == Keep(rows, p)
    decreases |rows|
  {
    if rows != [] {
      LocIsKeep(rows[1..], mask[1..], p);
    }
  }

  lemma {:induction false} KeepTwice(rows: seq<Row>, p: Row -> bool, q: Row -> bool, pq: Row -> bool)
    requires forall r :: pq(r) == (p(r) && q(r))
    ensures Keep(Keep(rows, p), q) == Keep(rows, pq)
    decreases |rows|
  {
    if rows != [] {
      KeepTwice(rows[1..], p, q, pq);
      var head := if p(rows[0]) then [rows[0]] else [];
      KeepConcat(head, Keep(rows[1..], p), q);
    }
  }

  lemma {:induction false} KeepConcat(a: seq<Row>, b: seq<Row>, p: Row -> bool)
    ensures Keep(a + b, p) == Keep(a, p) + Keep(b, p)
    decreases |a|
  {
    if a == [] {
      assert a + b == b;
      assert Keep(a, p) + Keep(b, p) == Keep(b, p);
    } else {
      var h := if p(a[0]) then [a[0]] else [];
      assert (a + b)[0] == a[0] && (a + b)[1..] == a[1..] + b;
      assert Keep(a + b, p) == h + Keep(a[1..] + b, p);
      KeepConcat(a[1..], b, p);
      ConcatAssoc(h, Keep(a[1..], p), Keep(b, p));
    }
  }

  lemma {:induction false} KeepIsSubseq(rows: seq<Row>, p: Row -> bool)
    ensures IsSubseq(Keep(rows, p), rows)
    decreases |rows|
  {
    if rows != [] {
      KeepIsSubseq(rows[1..], p);
      var k := Keep(rows, p);
      if p(rows[0]) {
        assert k[0] == rows[0] && k[1..] == Keep(rows[1..], p);
      } else {
        assert k == Keep(rows[1..], p);
      }
    }
  }

  lemma {:induction false} KeepMembers(rows: seq<Row>, p: Row -> bool)
    ensures forall r :: r in Keep(rows, p) <==> r in rows && p(r)
    decreases |rows|
  {
    if rows != [] {
      KeepMembers(rows[1..], p);
      assert rows == [rows[0]] + rows[1..];
    }
  }

  /** The dashboard's mask-then-keyword evaluation keeps exactly the selected rows, in order. */
  lemma ApplyFiltersIsKeep(rows: seq<Row>, f: Filters)
    ensures ApplyFilters(rows, f) == Keep(rows, r => Selected(r, f))
  {
    var m0 := DateMask(rows, f.start, f.end);
    var m1 := if f.primary != [] then AndMask(m0, PrimaryIn(rows, f.primary)) else m0;
    var m2 := if f.sub != [] then AndMask(m1, SubIn(rows, f.sub)) else m1;
    var pre := r => MaskSelected(r, f);
    LocIsKeep(rows, m2, pre);
    var filtered := Loc(rows, m2);
    var kw := r => KeywordSelected(r, f);
    if f.keyword != [] {
      LocIsKeep(filtered, KeywordMask(filtered, f.keyword), kw);
    } else {
      LocIsKeep(filtered, seq(|filtered|, i => true), kw);
      assert Keep(filtered, kw) == filtered by {
        KeepAll(filtered, kw);
      }
    }
    KeepTwice(rows, pre, kw, r => Selected(r, f));
  }

  lemma {:induction false} KeepAll(rows: seq<Row>, p: Row -> bool)
    requires forall r :: p(r)
    ensures Keep(rows, p) == rows
    decreases |rows|
  {
    if rows != [] {
      KeepAll(rows[1..], p);
    }
  }

  /**
   * The filtered rows are a subsequence of the input, and a row is among
   * them iff it is among the input rows and satisfies `Selected`.
   */
  lemma FilterSpec(rows: seq<Row>, f: Filters)
    ensures IsSubseq(ApplyFilters(rows, f), rows)
    ensures forall r :: r in ApplyFilters(rows, f) <==> r in rows && Selected(r, f)
  {
    ApplyFiltersIsKeep(rows, f);
    KeepIsSubseq(rows, r => Selected(r, f));
    KeepMembers(rows, r => Selected(r, f));
  }

  /**
   * Rows whose date did not parse are never shown, and with a keyword set
   * rows without a transcript are dropped.
   */
  lemma FilterDropsMissing(rows: seq<Row>, f: Filters)
    ensures forall r :: r in ApplyFilters(rows, f) ==> r.date != NaT
    ensures f.keyword != [] ==> forall r :: r in ApplyFilters(rows, f) ==> r.transcript != None
  {
    FilterSpec(rows, f);
  }
}
