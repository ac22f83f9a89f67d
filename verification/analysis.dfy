/**
 * The two analysis paths of the dashboard (LangChain/app_csv.py): one
 * selected call (lines 76-104) and every filtered call in turn
 * (lines 118-145). The model's replies and the JSON parser are parameters;
 * `parse` returns `None` where `json.loads` raises.
 */
module Analysis {
  import opened Wrappers
  import opened Text
  import opened Reply
  import RowFilter

  /** Why the single-call path stops: no `{...}` span, or a span `json.loads` rejects. */
  datatype AnalysisError = NoJson | BadJson

  /**
   * One call (lines 91-104): the reply is cleaned, the brace span taken and
   * parsed. The page stops with an error when there is no span; a parse
   * error escapes as an exception.
   */
  function AnalyzeOne<J>(raw: string, parse: string -> Option<J>): (r: Result<J, AnalysisError>)
    ensures r == Failure(NoJson) <==> !HasSpan(CleanReply(raw))
    ensures var c := CleanReply(raw);
            HasSpan(c) ==> exists a, b :: FirstToLast(c, a, b) && ParsedAs(r, parse, c[a..b + 1])
  {
    ParseBlock(CleanReply(raw), parse)
  }

  /** `s[a..b + 1]` runs from the first '{' of `s` to its last '}'. */
  predicate FirstToLast(s: string, a: int, b: int)
  {
    && SpanAt(s, a, b)
    && (forall k :: 0 <= k < a ==> s[k] != '{')
    && (forall k :: b < k < |s| ==> s[k] != '}')
  }

  /** There is only one such span: the two ends are fixed by the text. */
  lemma FirstToLastUnique(s: string, a: int, b: int, a': int, b': int)
    requires FirstToLast(s, a, b) && FirstToLast(s, a', b')
    ensures a == a' && b == b'
  {
  }

  /** `r` is what the page shows for the JSON text `span`: its parse, or a parse error. */
  ghost predicate ParsedAs<J>(r: Result<J, AnalysisError>, parse: string -> Option<J>, span: string)
  {
    && (r.Success? <==> parse(span).Some?)
    && (r.Success? ==> parse(span) == Some(r.value))
    && (r.Failure? ==> r.error == BadJson)
  }

  /** Lines 98-104 on a cleaned reply `c`: search the brace span, then parse it. */
  function ParseBlock<J>(c: string, parse: string -> Option<J>): (r: Result<J, AnalysisError>)
    ensures r == Failure(NoJson) <==> !HasSpan(c)
    ensures HasSpan(c) ==> exists a, b :: FirstToLast(c, a, b) && ParsedAs(r, parse, c[a..b + 1])
  {
    match Block(c)
    case None => Failure(NoJson)
    case Some(b) =>
      match parse(b)
      case None =>
        BlockWitness(c, Failure(BadJson), parse);
        Failure(BadJson)
      case Some(j) =>
        BlockWitness(c, Success(j), parse);
        Success(j)
  }

  /** What holds of `Block`'s span holds of the span from the first '{' to the last '}'. */
  lemma BlockWitness<J>(c: string, r: Result<J, AnalysisError>, parse: string -> Option<J>)
    requires Block(c).Some? && ParsedAs(r, parse, Block(c).value)
    ensures exists a, b :: FirstToLast(c, a, b) && ParsedAs(r, parse, c[a..b + 1])
  {
    var a, b := FirstIndex(c, '{'), LastIndex(c, '}');
    assert FirstToLast(c, a, b) && Block(c).value == c[a..b + 1];
  }

  // ---------------------------------------------------------------------
  // A reply in the shape the prompt asks for
  // ---------------------------------------------------------------------

  /** One line of JSON object text, as the prompt asks the model to return. */
  predicate JsonLine(body: string)
  {
    |body| >= 2 && body[0] == '{' && body[|body| - 1] == '}' && NoBreak(body)
  }

  /** The reply the prompt invites: the JSON line between two fence lines. */
  function Fenced(body: string): string
  {
    JoinLines([Open, body, Close])
  }

  lemma FencedLayout(body: string)
    ensures Fenced(body) == Open + ("\n" + (body + ("\n" + Close)))
  {
    JoinCons(Open, [body, Close]);
    JoinCons(body, [Close]);
    assert [Open] + [body, Close] == [Open, body, Close];
    assert [body] + [Close] == [body, Close];
  }

  lemma BodyKeepsFences(body: string)
    requires JsonLine(body)
    ensures StripFenceLine(body) == body
  {
    if |body| >= |Open| {
      assert body[..|Open|][0] == '{';
    }
    if |body| >= |Close| {
      assert body[|body| - |Close|..][|Close| - 1] == '}';
    }
  }

  lemma BodyNotDiagnostic(body: string)
    requires JsonLine(body)
    ensures Strip(body) == body && !IsDiagnostic(body)
  {
    assert Strip(body) == body;
    if |body| >= |Diagnostic| {
      assert body[..|Diagnostic|][0] == '{';
    }
  }

  lemma BodyIsBlock(body: string)
    requires JsonLine(body)
    ensures Block(body) == Some(body)
  {
    assert FirstIndex(body, '{') == 0;
    assert LastIndex(body, '}') == |body| - 1;
    assert body[0..|body|] == body;
  }

  lemma FencedStripped(body: string)
    requires JsonLine(body)
    ensures Strip(Fenced(body)) == Fenced(body)
  {
    FencedLayout(body);
    var r := Fenced(body);
    assert r[0] == '`' && r[|r| - 1] == '`';
  }

  /** The fence lines disappear and the newlines around the body stay. */
  lemma FencedUnfenced(body: string)
    requires JsonLine(body)
    ensures StripFences(Fenced(body)) == "\n" + (body + "\n")
  {
    StripFencesIsPerLine(Fenced(body));
    FencedSplit(body);
    FencedLinesStripped(body);
    JoinAroundBlank(body);
  }

  lemma FencedSplit(body: string)
    requires JsonLine(body)
    ensures Split(Fenced(body)) == [Open, body, Close]
  {
    var ls := [Open, body, Close];
    assert NoBreak(Open) && NoBreak(Close);
    assert forall l :: l in ls ==> NoBreak(l);
    JoinSplit(ls);
  }

  lemma FencedLinesStripped(body: string)
    requires JsonLine(body)
    ensures MapStripFenceLine([Open, body, Close]) == [[], body, []]
  {
    MapCons(Open, [body, Close]);
    MapCons(body, [Close]);
    MapCons(Close, []);
    assert [Open] + [body, Close] == [Open, body, Close];
    assert [body] + [Close] == [body, Close];
    assert [Close] + [] == [Close];
    assert StripFenceLine(Open) == [] && StripFenceLine(Close) == [];
    BodyKeepsFences(body);
  }

  lemma JoinAroundBlank(body: string)
    ensures JoinLines([[], body, []]) == "\n" + (body + "\n")
  {
    JoinCons([], [body, []]);
    JoinCons(body, [[]]);
    assert [[]] + [body, []] == [[], body, []];
    assert [body] + [[]] == [body, []];
  }

  lemma UnfencedStripped(body: string)
    requires JsonLine(body)
    ensures Strip("\n" + (body + "\n")) == body
  {
    var f := "\n" + (body + "\n");
    assert TrimmedSliceAt(f, 1, body) by {
      assert f[1..1 + |body|] == body;
    }
    StripUnique(f, 1, body);
  }

  lemma BodyLines(body: string)
    requires JsonLine(body)
    ensures Strip(JoinLines(DropDiagnostics(SplitLines(body)))) == body
  {
    assert SplitLines(body) == [body] by {
      assert body[|body| - 1] != '\n';
      JoinSplit([body]);
    }
    BodyNotDiagnostic(body);
    assert DropDiagnostics([body]) == [body];
  }

  /** The single-call clean-up hands the JSON line, and only it, on. */
  lemma FencedClean(body: string)
    requires JsonLine(body)
    ensures CleanReply(Fenced(body)) == body
  {
    assert Strip(StripFences(Strip(Fenced(body)))) == body by {
      FencedStripped(body);
      FencedUnfenced(body);
      UnfencedStripped(body);
    }
    BodyLines(body);
  }

  /** The batch clean-up hands the JSON line, and only it, on. */
  lemma FencedBatchClean(body: string)
    requires JsonLine(body)
    ensures CleanBatchReply(Fenced(body)) == body
  {
    FencedStripped(body);
    FencedUnfenced(body);
    UnfencedStripped(body);
  }

  /**
   * A reply that is a "```json" fence around one line of JSON gives exactly
   * that line to the parser.
   */
  lemma FencedReply<J>(body: string, parse: string -> Option<J>)
    requires JsonLine(body)
    ensures AnalyzeOne(Fenced(body), parse)
            == (if parse(body).Some? then Success(parse(body).value) else Failure(BadJson))
  {
    FencedClean(body);
    BodyIsBlock(body);
  }

  /**
   * A diagnostic line in front of the JSON line: it starts with "E0000",
   * ends in a non-blank, and carries a '{' but no backtick.
   */
  predicate NoisyReply(d: string, body: string)
  {
    && JsonLine(body)
    && NoBreak(d) && |d| >= |Diagnostic| && d[..|Diagnostic|] == Diagnostic && !IsSpace(d[|d| - 1])
    && '{' in d && '`' !in d
  }

  lemma NoisyDiagnostic(d: string)
    requires |d| >= |Diagnostic| && d[..|Diagnostic|] == Diagnostic && !IsSpace(d[|d| - 1])
    ensures IsDiagnostic(d)
  {
    assert d[0] == d[..|Diagnostic|][0];
    assert Strip(d) == d;
  }

  lemma NoBacktickLine(l: string)
    requires '`' !in l
    ensures StripFenceLine(l) == l
  {
    if |l| >= |Open| {
      assert l[..|Open|][0] == l[0];
    }
    if |l| >= |Close| {
      assert l[|l| - |Close|..][0] == l[|l| - |Close|];
    }
  }

  lemma NoisyLayout(d: string, body: string)
    requires JsonLine(body) && NoBreak(d)
    ensures JoinLines([d, body]) == d + ("\n" + body)
    ensures SplitLines(JoinLines([d, body])) == [d, body]
  {
    assert JoinLines([d, body]) == d + ("\n" + body) by {
      JoinCons(d, [body]);
      assert [d] + [body] == [d, body];
    }
    var raw := JoinLines([d, body]);
    assert raw[|raw| - 1] == body[|body| - 1];
    assert forall l :: l in [d, body] ==> NoBreak(l);
    JoinSplit([d, body]);
  }

  lemma NoisyUnfenced(d: string, body: string)
    requires JsonLine(body) && NoBreak(d) && d != [] && !IsSpace(d[0]) && '`' !in d
    ensures CleanBatchReply(JoinLines([d, body])) == JoinLines([d, body])
  {
    var raw := JoinLines([d, body]);
    assert Split(raw) == [d, body] by {
      NoisyLayout(d, body);
      assert raw[|raw| - 1] == body[|body| - 1];
    }
    assert Strip(raw) == raw by {
      NoisyLayout(d, body);
      assert raw[0] == d[0] && raw[|raw| - 1] == body[|body| - 1];
    }
    StripFencesIsPerLine(raw);
    assert MapStripFenceLine([d, body]) == [d, body] by {
      MapCons(d, [body]);
      MapCons(body, []);
      assert [d] + [body] == [d, body];
      assert [body] + [] == [body];
      NoBacktickLine(d);
      BodyKeepsFences(body);
    }
  }

  lemma NoisyClean(d: string, body: string)
    requires NoisyReply(d, body)
    ensures CleanReply(JoinLines([d, body])) == body
  {
    NoisyKeptWhole(d, body);
    NoisyLayout(d, body);
    NoisyDropped(d, body);
    BodyNotDiagnostic(body);
    CleanSteps(JoinLines([d, body]), JoinLines([d, body]), [d, body], [body], body);
  }

  lemma NoisyKeptWhole(d: string, body: string)
    requires NoisyReply(d, body)
    ensures Strip(StripFences(Strip(JoinLines([d, body])))) == JoinLines([d, body])
  {
    assert d[0] == d[..|Diagnostic|][0];
    NoisyUnfenced(d, body);
  }

  lemma NoisyDropped(d: string, body: string)
    requires NoisyReply(d, body)
    ensures DropDiagnostics([d, body]) == [body]
  {
    NoisyDiagnostic(d);
    BodyNotDiagnostic(body);
    assert [d, body][1..] == [body];
  }

  /** The single-call clean-up, one stage at a time. */
  lemma CleanSteps(raw: string, t: string, ls: seq<string>, kept: seq<string>, out: string)
    requires Strip(StripFences(Strip(raw))) == t && SplitLines(t) == ls
    requires DropDiagnostics(ls) == kept && Strip(JoinLines(kept)) == out
    ensures CleanReply(raw) == out
  {
  }

  lemma NoisyBatchSpan(d: string, body: string)
    requires JsonLine(body) && NoBreak(d) && '{' in d
    ensures Block(JoinLines([d, body])) == Some(d[FirstIndex(d, '{')..] + ("\n" + body))
  {
    NoisyLayout(d, body);
    NoisySpanOf(d, body, JoinLines([d, body]), FirstIndex(d, '{'));
  }

  lemma NoisySpanOf(d: string, body: string, raw: string, a: nat)
    requires JsonLine(body) && '{' in d && a == FirstIndex(d, '{')
    requires raw == d + ("\n" + body)
    ensures Block(raw) == Some(d[a..] + ("\n" + body))
  {
    var b := |raw| - 1;
    assert FirstIndex(raw, '{') == a < |d| by {
      FirstIndexPrefix(d, "\n" + body, '{');
    }
    assert LastIndex(raw, '}') == b by {
      assert raw[b] == body[|body| - 1];
    }
    BlockAt(raw, a, b);
    SliceOfConcat(d, "\n" + body, a);
  }

  /**
   * The paths disagree when a diagnostic line with a brace comes first: the
   * single call drops the line and parses the JSON line alone, while the
   * batch keeps it and its span starts at the diagnostic's '{'.
   */
  lemma PathsDisagree(d: string, body: string)
    requires NoisyReply(d, body)
    ensures Block(CleanReply(JoinLines([d, body]))) == Some(body)
    ensures BatchBlock(JoinLines([d, body])) == Some(d[FirstIndex(d, '{')..] + ("\n" + body))
    ensures |BatchBlock(JoinLines([d, body])).value| > |body|
  {
    NoisySingle(d, body);
    NoisyBatch(d, body);
  }

  /** The single call drops the diagnostic line and finds the JSON line alone. */
  lemma NoisySingle(d: string, body: string)
    requires NoisyReply(d, body)
    ensures Block(CleanReply(JoinLines([d, body]))) == Some(body)
  {
    NoisyClean(d, body);
    BodyIsBlock(body);
  }

  /** The batch keeps the diagnostic line, so its span starts at the line's first '{'. */
  lemma NoisyBatch(d: string, body: string)
    requires NoisyReply(d, body)
    ensures BatchBlock(JoinLines([d, body])) == Some(d[FirstIndex(d, '{')..] + ("\n" + body))
    ensures |BatchBlock(JoinLines([d, body])).value| > |body|
  {
    assert d[0] == d[..|Diagnostic|][0];
    NoisyUnfenced(d, body);
    NoisyBatchSpan(d, body);
  }

  /**
   * The two paths differ only by the diagnostic filter: when no line of the
   * batch-cleaned reply is a diagnostic, both clean the reply to the same
   * text and find the same span.
   */
  lemma PathsAgree(raw: string)
    requires forall l :: l in SplitLines(CleanBatchReply(raw)) ==> !IsDiagnostic(l)
    ensures CleanReply(raw) == CleanBatchReply(raw)
    ensures Block(CleanReply(raw)) == BatchBlock(raw)
  {
    var t := CleanBatchReply(raw);
    assert CleanReply(raw) == Strip(JoinLines(DropDiagnostics(SplitLines(t))));
    FilterIdle(t);
  }

  /** A stripped text without diagnostic lines passes the line filter and the final strip unchanged. */
  lemma FilterIdle(t: string)
    requires t == Strip(t)
    requires forall l :: l in SplitLines(t) ==> !IsDiagnostic(l)
    ensures Strip(JoinLines(DropDiagnostics(SplitLines(t)))) == t
  {
    DropNone(SplitLines(t));
    SplitLinesJoin(t);
    if t != [] {
      assert !IsSpace(t[|t| - 1]) by {
        assert Strip(t) == t;
      }
      assert IsSpace('\n');
    }
  }

  // ---------------------------------------------------------------------
  // The batch path
  // ---------------------------------------------------------------------

  /** One result row: the parsed JSON with the call's date and primary reason added. */
  datatype Tagged<J> = Tagged(date: RowFilter.Date, primaryReason: string, result: J)

  /** The JSON text found in one batch reply (lines 138-140): no diagnostic lines are dropped. */
  function BatchBlock(reply: string): Option<string>
  {
    Block(CleanBatchReply(reply))
  }

  /** The span found in each reply. */
  function Spans(replies: seq<string>): (spans: seq<Option<string>>)
    ensures |spans| == |replies|
    ensures forall k :: 0 <= k < |replies| ==> spans[k] == BatchBlock(replies[k])
  {
    seq(|replies|, k requires 0 <= k < |replies| => BatchBlock(replies[k]))
  }

  /** A span the batch can get past: none at all, or one that parses. */
  predicate SpanParses<J>(span: Option<string>, parse: string -> Option<J>)
  {
    span.Some? ==> parse(span.value).Some?
  }

  /**
   * The loop body over rows whose spans are already found: a row without a
   * span is skipped, and a span `json.loads` rejects aborts the whole run.
   */
  function Collect<J>(rows: seq<RowFilter.Row>, spans: seq<Option<string>>, parse: string -> Option<J>)
    : (r: Result<seq<Tagged<J>>, AnalysisError>)
    requires |rows| == |spans|
    ensures r.Failure? ==> r.error == BadJson
    ensures r.Success? ==> |r.value| <= |rows|
  {
    if rows == [] then Success([])
    else
      var rest := Collect(rows[1..], spans[1..], parse);
      match spans[0]
      case None => rest
      case Some(b) =>
        match parse(b)
        case None => Failure(BadJson)
        case Some(j) =>
          if rest.Failure? then rest
          else Success([Tagged(rows[0].date, rows[0].primaryReason, j)] + rest.value)
  }

  /** Lines 123-145, with `replies[k]` the model's answer for `rows[k]`. */
  function Batch<J>(rows: seq<RowFilter.Row>, replies: seq<string>, parse: string -> Option<J>)
    : Result<seq<Tagged<J>>, AnalysisError>
    requires |rows| == |replies|
  {
    Collect(rows, Spans(replies), parse)
  }

  /** `r` with `acc` put in front of its results. */
  function Prepend<J>(acc: seq<Tagged<J>>, r: Result<seq<Tagged<J>>, AnalysisError>)
    : Result<seq<Tagged<J>>, AnalysisError>
  {
    if r.Success? then Success(acc + r.value) else r
  }

  lemma CollectStep<J>(acc: seq<Tagged<J>>, rows: seq<RowFilter.Row>, spans: seq<Option<string>>,
                       parse: string -> Option<J>, i: nat)
    requires |rows| == |spans| && i < |rows|
    requires spans[i].Some? ==> parse(spans[i].value).Some?
    ensures Prepend(acc, Collect(rows[i..], spans[i..], parse))
            == Prepend(acc + (if spans[i].Some? then [Tagged(rows[i].date, rows[i].primaryReason, parse(spans[i].value).value)] else []),
                       Collect(rows[i + 1..], spans[i + 1..], parse))
  {
    assert rows[i..][1..] == rows[i + 1..] && spans[i..][1..] == spans[i + 1..];
    var rest := Collect(rows[i + 1..], spans[i + 1..], parse);
    assert acc + [] == acc;
    if spans[i].Some? && rest.Success? {
      var t := Tagged(rows[i].date, rows[i].primaryReason, parse(spans[i].value).value);
      assert acc + ([t] + rest.value) == (acc + [t]) + rest.value;
    }
  }

  /** The loop of lines 123-145 over the spans, collecting into `all_results`. */
  method CollectAll<J>(rows: seq<RowFilter.Row>, spans: seq<Option<string>>, parse: string -> Option<J>)
    returns (r: Result<seq<Tagged<J>>, AnalysisError>)
    requires |rows| == |spans|
    ensures r == Collect(rows, spans, parse)
  {
    var all: seq<Tagged<J>> := [];
    var i := 0;
    assert rows[0..] == rows && spans[0..] == spans;
    assert Collect(rows, spans, parse).Success? ==> [] + Collect(rows, spans, parse).value == Collect(rows, spans, parse).value;
    while i < |rows|
      invariant 0 <= i <= |rows|
      invariant Collect(rows, spans, parse) == Prepend(all, Collect(rows[i..], spans[i..], parse))
    {
      if spans[i].Some? && parse(spans[i].value).None? {
        assert rows[i..][1..] == rows[i + 1..] && spans[i..][1..] == spans[i + 1..];
        return Failure(BadJson);
      }
      CollectStep(all, rows, spans, parse, i);
      if spans[i].Some? {
        all := all + [Tagged(rows[i].date, rows[i].primaryReason, parse(spans[i].value).value)];
      }
      i := i + 1;
    }
    assert rows[i..] == [] && spans[i..] == [];
    assert all + [] == all;
    return Success(all);
  }

  /**
   * Lines 123-145: each reply is cleaned without dropping lines and its
   * span searched for, then the rows are collected. The batch fails exactly
   * when some reply's span does not parse; otherwise it yields, in row
   * order, one result per reply with a span, tagged with that row.
   */
  method AnalyzeAll<J>(rows: seq<RowFilter.Row>, replies: seq<string>, parse: string -> Option<J>)
    returns (r: Result<seq<Tagged<J>>, AnalysisError>)
    requires |rows| == |replies|
    ensures r == Batch(rows, replies, parse)
    ensures r.Failure? <==> exists k :: 0 <= k < |replies| && !SpanParses(BatchBlock(replies[k]), parse)
    ensures r.Success? ==> var idx := SpanIndicesFrom(Spans(replies), 0);
                           |r.value| == |idx|
                           && forall m :: 0 <= m < |idx| ==> IsTagOf(r.value[m], rows, Spans(replies), parse, idx[m])
  {
    var spans := FindSpans(replies);
    r := CollectAll(rows, spans, parse);
    BatchFailsIff(rows, replies, parse);
    if r.Success? {
      BatchResults(rows, replies, parse);
    }
  }

  /** Lines 123 and 138-140: each reply, cleaned without dropping lines, searched for its span with the two-scan search. */
  method FindSpans(replies: seq<string>) returns (spans: seq<Option<string>>)
    ensures spans == Spans(replies)
  {
    spans := [];
    var k := 0;
    while k < |replies|
      invariant k <= |replies| && spans == Spans(replies)[..k]
    {
      var span := FindBlock(CleanBatchReply(replies[k]));
      assert span == Spans(replies)[k];
      PrefixStep(Spans(replies), spans, span, k);
      spans := spans + [span];
      k := k + 1;
    }
    assert spans == Spans(replies)[..|replies|];
  }

  /** A prefix of `want` extended by its next element. */
  lemma PrefixStep<T>(want: seq<T>, got: seq<T>, x: T, k: nat)
    requires k < |want| && got == want[..k] && x == want[k]
    ensures got + [x] == want[..k + 1]
  {
  }

  lemma {:induction false} CollectFailsIff<J>(rows: seq<RowFilter.Row>, spans: seq<Option<string>>, parse: string -> Option<J>)
    requires |rows| == |spans|
    ensures Collect(rows, spans, parse).Failure? <==> exists k :: 0 <= k < |spans| && !SpanParses(spans[k], parse)
  {
    if rows != [] {
      CollectFailsIff(rows[1..], spans[1..], parse);
      if exists k :: 0 <= k < |spans| && !SpanParses(spans[k], parse) {
        var k :| 0 <= k < |spans| && !SpanParses(spans[k], parse);
        if k > 0 {
          assert spans[1..][k - 1] == spans[k];
        }
      } else {
        assert SpanParses(spans[0], parse);
        assert forall k :: 0 <= k < |spans[1..]| ==> spans[1..][k] == spans[k + 1];
      }
    }
  }

  /** The batch fails exactly when some reply has a span the parser rejects. */
  lemma BatchFailsIff<J>(rows: seq<RowFilter.Row>, replies: seq<string>, parse: string -> Option<J>)
    requires |rows| == |replies|
    ensures Batch(rows, replies, parse).Failure?
            <==> exists k :: 0 <= k < |replies| && !SpanParses(BatchBlock(replies[k]), parse)
  {
    var spans := Spans(replies);
    CollectFailsIff(rows, spans, parse);
    SameBadSpan(spans, replies, BatchBlock, parse);
  }

  /** A reply with an unparsable span, found among the spans or among the replies. */
  lemma SameBadSpan<J>(spans: seq<Option<string>>, replies: seq<string>, find: string -> Option<string>,
                       parse: string -> Option<J>)
    requires |spans| == |replies|
    requires forall k :: 0 <= k < |replies| ==> spans[k] == find(replies[k])
    ensures (exists k :: 0 <= k < |spans| && !SpanParses(spans[k], parse))
            <==> (exists k :: 0 <= k < |replies| && !SpanParses(find(replies[k]), parse))
  {
    if exists k :: 0 <= k < |replies| && !SpanParses(find(replies[k]), parse) {
      var k :| 0 <= k < |replies| && !SpanParses(find(replies[k]), parse);
      assert !SpanParses(spans[k], parse);
    }
  }

  /** The indices from `i` on whose reply has a span, in increasing order. */
  function SpanIndicesFrom(spans: seq<Option<string>>, i: nat): (idx: seq<nat>)
    requires i <= |spans|
    ensures forall m :: 0 <= m < |idx| ==> i <= idx[m] < |spans| && spans[idx[m]].Some?
    ensures forall m, n :: 0 <= m < n < |idx| ==> idx[m] < idx[n]
    ensures forall k :: i <= k < |spans| && spans[k].Some? ==> k in idx
    decreases |spans| - i
  {
    if i == |spans| then []
    else (if spans[i].Some? then [i] else []) + SpanIndicesFrom(spans, i + 1)
  }

  /** `t` is the result the loop appends for row `k`: that row's span parsed, tagged with the row. */
  ghost predicate IsTagOf<J>(t: Tagged<J>, rows: seq<RowFilter.Row>, spans: seq<Option<string>>,
                             parse: string -> Option<J>, k: nat)
    requires |rows| == |spans| && k < |rows|
  {
    && spans[k].Some?
    && parse(spans[k].value) == Some(t.result)
    && t.date == rows[k].date
    && t.primaryReason == rows[k].primaryReason
  }

  /** The results of a successful run over `rows[i..]`: one per row with a span, in row order. */
  ghost predicate ResultsFrom<J>(v: seq<Tagged<J>>, rows: seq<RowFilter.Row>, spans: seq<Option<string>>,
                                 parse: string -> Option<J>, i: nat)
    requires |rows| == |spans| && i <= |rows|
  {
    var idx := SpanIndicesFrom(spans, i);
    |v| == |idx| && forall m :: 0 <= m < |v| ==> IsTagOf(v[m], rows, spans, parse, idx[m])
  }

  lemma {:induction false} CollectFromResults<J>(rows: seq<RowFilter.Row>, spans: seq<Option<string>>,
                                                 parse: string -> Option<J>, i: nat)
    requires |rows| == |spans| && i <= |rows|
    requires Collect(rows[i..], spans[i..], parse).Success?
    ensures ResultsFrom(Collect(rows[i..], spans[i..], parse).value, rows, spans, parse, i)
    decreases |rows| - i
  {
    if i < |rows| {
      var rest := Collect(rows[i + 1..], spans[i + 1..], parse);
      assert rows[i..][1..] == rows[i + 1..] && spans[i..][1..] == spans[i + 1..];
      assert rest.Success?;
      CollectFromResults(rows, spans, parse, i + 1);
      CollectFromStep(rows, spans, parse, i, Collect(rows[i..], spans[i..], parse).value, rest.value);
    }
  }

  /** The step of `CollectFromResults`: row `i` contributes its tag when it has a span, and nothing otherwise. */
  lemma CollectFromStep<J>(rows: seq<RowFilter.Row>, spans: seq<Option<string>>, parse: string -> Option<J>,
                           i: nat, v: seq<Tagged<J>>, w: seq<Tagged<J>>)
    requires |rows| == |spans| && i < |rows|
    requires spans[i].Some? ==> parse(spans[i].value).Some?
                                && v == [Tagged(rows[i].date, rows[i].primaryReason, parse(spans[i].value).value)] + w
    requires spans[i].None? ==> v == w
    requires ResultsFrom(w, rows, spans, parse, i + 1)
    ensures ResultsFrom(v, rows, spans, parse, i)
  {
    var idx := SpanIndicesFrom(spans, i);
    var rest := SpanIndicesFrom(spans, i + 1);
    if spans[i].Some? {
      assert idx == [i] + rest;
      forall m | 0 <= m < |v|
        ensures IsTagOf(v[m], rows, spans, parse, idx[m])
      {
        if m > 0 {
          assert v[m] == w[m - 1] && idx[m] == rest[m - 1];
        }
      }
    } else {
      assert idx == rest;
    }
  }

  /**
   * A successful run yields, in row order, exactly one result per row with
   * a span: the parse of that row's span, tagged with the row's date and
   * primary reason.
   */
  lemma CollectResults<J>(rows: seq<RowFilter.Row>, spans: seq<Option<string>>, parse: string -> Option<J>)
    requires |rows| == |spans|
    requires Collect(rows, spans, parse).Success?
    ensures var v := Collect(rows, spans, parse).value;
            var idx := SpanIndicesFrom(spans, 0);
            |v| == |idx| && forall m :: 0 <= m < |v| ==> IsTagOf(v[m], rows, spans, parse, idx[m])
  {
    assert rows[0..] == rows && spans[0..] == spans;
    CollectFromResults(rows, spans, parse, 0);
  }

  /**
   * A successful batch yields one result per reply with a span, in row
   * order: result `m` is the parse of the `m`-th such reply's span, tagged
   * with its row's date and primary reason. Rows without a span are skipped.
   */
  lemma BatchResults<J>(rows: seq<RowFilter.Row>, replies: seq<string>, parse: string -> Option<J>)
    requires |rows| == |replies|
    requires Batch(rows, replies, parse).Success?
    ensures var v := Batch(rows, replies, parse).value;
            var idx := SpanIndicesFrom(Spans(replies), 0);
            |v| == |idx| && forall m :: 0 <= m < |v| ==> IsTagOf(v[m], rows, Spans(replies), parse, idx[m])
  {
    CollectResults(rows, Spans(replies), parse);
  }
}
