/**
 * Clean-up of a model reply before it is parsed as JSON
 * (LangChain/app_csv.py, lines 91-104 and 138-142): markdown fences are
 * removed line by line, diagnostic lines starting with "E0000" are dropped,
 * and the span from the first '{' to the last '}' is taken as the JSON text.
 */
module Reply {
  import opened Wrappers
  import opened Text

  const Open: string := "```json"
  const Close: string := "```"

  // ---------------------------------------------------------------------
  // re.sub(r"^```json|```$", "", s, flags=re.MULTILINE)
  // ---------------------------------------------------------------------

  /** `^` under MULTILINE: the start of the text or just after a newline. */
  predicate LineStart(s: string, i: nat)
    requires i <= |s|
  {
    i == 0 || s[i - 1] == '\n'
  }

  /** `$` under MULTILINE: the end of the text or just before a newline. */
  predicate LineEnd(s: string, i: nat)
    requires i <= |s|
  {
    i == |s| || s[i] == '\n'
  }

  /**
   * The match of the fence pattern starting at `i`, as the index just after
   * it. The first alternative is tried first; neither can match the empty
   * string.
   */
  function FenceAt(s: string, i: nat): (r: Option<nat>)
    requires i <= |s|
    ensures r.Some? ==> i < r.value <= |s|
  {
    if LineStart(s, i) && OccursAt(s, i, Open) then Some(i + |Open|)
    else if OccursAt(s, i, Close) && LineEnd(s, i + |Close|) then Some(i + |Close|)
    else None
  }

  /** The left-to-right scan of `re.sub`: matches are deleted, everything else copied. */
  function StripFencesFrom(s: string, i: nat): string
    requires i <= |s|
    decreases |s| - i
  {
    if i == |s| then []
    else match FenceAt(s, i)
      case Some(j) => StripFencesFrom(s, j)
      case None => [s[i]] + StripFencesFrom(s, i + 1)
  }

  function StripFences(s: string): string
  {
    StripFencesFrom(s, 0)
  }

  // ---------------------------------------------------------------------
  // Lines: str.split("\n"), "\n".join and str.splitlines()
  // ---------------------------------------------------------------------

  /** The index of the first newline at or after `i`, or `|s|`. */
  function NextBreak(s: string, i: nat): (e: nat)
    requires i <= |s|
    ensures i <= e <= |s| && LineEnd(s, e)
    decreases |s| - i
  {
    if i == |s| || s[i] == '\n' then i else NextBreak(s, i + 1)
  }

  /** No newline comes before the one `NextBreak` finds. */
  lemma {:induction false} NextBreakFirst(s: string, i: nat)
    requires i <= |s|
    ensures forall k :: i <= k < NextBreak(s, i) ==> s[k] != '\n'
    decreases |s| - i
  {
    if i < |s| && s[i] != '\n' {
      NextBreakFirst(s, i + 1);
    }
  }

  /** The lines of `s[i..]` as `str.split("\n")` gives them: always at least one. */
  function SplitFrom(s: string, i: nat): (ls: seq<string>)
    requires i <= |s|
    ensures |ls| >= 1
    decreases |s| - i
  {
    var e := NextBreak(s, i);
    [s[i..e]] + (if e == |s| then [] else SplitFrom(s, e + 1))
  }

  function Split(s: string): seq<string>
  {
    SplitFrom(s, 0)
  }

  /** `"\n".join(ls)`. */
  function JoinLines(ls: seq<string>): string
  {
    if ls == [] then []
    else if |ls| == 1 then ls[0]
    else ls[0] + "\n" + JoinLines(ls[1..])
  }

  /** `str.splitlines()` for text whose only line break is '\n'. */
  function SplitLines(s: string): (ls: seq<string>)
    ensures s == [] ==> ls == []
  {
    if s == [] then []
    else if s[|s| - 1] == '\n' then Split(s[..|s| - 1])
    else Split(s)
  }

  predicate NoBreak(l: string)
  {
    forall k :: 0 <= k < |l| ==> l[k] != '\n'
  }

  lemma JoinCons(x: string, ys: seq<string>)
    requires ys != []
    ensures JoinLines([x] + ys) == x + ("\n" + JoinLines(ys))
  {
    assert ([x] + ys)[1..] == ys;
  }

  lemma SliceAt(s: string, i: nat, e: nat)
    requires i <= e < |s| && s[e] == '\n'
    ensures s[i..] == s[i..e] + ("\n" + s[e + 1..])
  {
    assert s[i..] == s[i..e] + s[e..];
    assert s[e..] == [s[e]] + s[e + 1..];
  }

  lemma SplitStep(s: string, i: nat)
    requires i <= |s| && NextBreak(s, i) < |s|
    ensures SplitFrom(s, i) == [s[i..NextBreak(s, i)]] + SplitFrom(s, NextBreak(s, i) + 1)
  {
  }

  lemma NoBreakCons(l0: string, rest: seq<string>)
    requires NoBreak(l0) && forall l :: l in rest ==> NoBreak(l)
    ensures forall l :: l in [l0] + rest ==> NoBreak(l)
  {
  }

  lemma {:induction false} SplitFromNoBreak(s: string, i: nat)
    requires i <= |s|
    ensures forall l :: l in SplitFrom(s, i) ==> NoBreak(l)
    decreases |s| - i
  {
    var e := NextBreak(s, i);
    if e < |s| {
      NextLineStart(s, i, e);
      SplitFromNoBreak(s, e + 1);
      SplitFromNoBreakStep(s, i, e);
    } else {
      LineNoBreak(s, i, e);
      assert SplitFrom(s, i) == [s[i..e]];
    }
  }

  /** A line up to the next newline holds no newline. */
  lemma LineNoBreak(s: string, i: nat, e: nat)
    requires i <= |s| && e == NextBreak(s, i)
    ensures NoBreak(s[i..e])
  {
    NextBreakFirst(s, i);
    forall k | 0 <= k < e - i
      ensures s[i..e][k] != '\n'
    {
      assert s[i..e][k] == s[i + k];
    }
  }

  /** The induction step of `SplitFromNoBreak`. */
  lemma SplitFromNoBreakStep(s: string, i: nat, e: nat)
    requires i <= e < |s| && e == NextBreak(s, i)
    requires forall l :: l in SplitFrom(s, e + 1) ==> NoBreak(l)
    ensures forall l :: l in SplitFrom(s, i) ==> NoBreak(l)
  {
    LineNoBreak(s, i, e);
    SplitStepAt(s, i, e);
    NoBreakConsOf(SplitFrom(s, i), s[i..e], SplitFrom(s, e + 1));
  }

  lemma NoBreakConsOf(ls: seq<string>, l0: string, rest: seq<string>)
    requires ls == [l0] + rest
    requires NoBreak(l0) && forall l :: l in rest ==> NoBreak(l)
    ensures forall l :: l in ls ==> NoBreak(l)
  {
    NoBreakCons(l0, rest);
  }

  /** The induction step of `SplitFromJoin`. */
  lemma SplitFromJoinStep(s: string, i: nat, e: nat)
    requires i <= e < |s| && e == NextBreak(s, i)
    requires JoinLines(SplitFrom(s, e + 1)) == s[e + 1..]
    ensures JoinLines(SplitFrom(s, i)) == s[i..]
  {
    NextLineStart(s, i, e);
    SplitStepAt(s, i, e);
    JoinConsOf(SplitFrom(s, i), s[i..e], SplitFrom(s, e + 1), s[e + 1..]);
    SliceAt(s, i, e);
  }

  lemma JoinConsOf(ls: seq<string>, x: string, ys: seq<string>, t: string)
    requires ls == [x] + ys && ys != [] && JoinLines(ys) == t
    ensures JoinLines(ls) == x + ("\n" + t)
  {
    JoinCons(x, ys);
  }

  lemma {:induction false} SplitFromJoin(s: string, i: nat)
    requires i <= |s|
    ensures JoinLines(SplitFrom(s, i)) == s[i..]
    decreases |s| - i
  {
    var e := NextBreak(s, i);
    if e < |s| {
      NextLineStart(s, i, e);
      SplitFromJoin(s, e + 1);
      SplitFromJoinStep(s, i, e);
    } else {
      SplitFromJoinLast(s, i, e);
    }
  }

  /** The last line of `s[i..]`: no newline follows it. */
  lemma SplitFromJoinLast(s: string, i: nat, e: nat)
    requires i <= e == |s| && e == NextBreak(s, i)
    ensures JoinLines(SplitFrom(s, i)) == s[i..]
  {
    assert SplitFrom(s, i) == [s[i..e]];
    assert s[i..e] == s[i..];
  }

  /** Splitting on '\n' and joining with '\n' gives the text back. */
  lemma SplitJoin(s: string)
    ensures JoinLines(Split(s)) == s
    ensures forall l :: l in Split(s) ==> NoBreak(l)
  {
    SplitFromJoin(s, 0);
    SplitFromNoBreak(s, 0);
  }

  /** `splitlines` loses only a final newline. */
  lemma SplitLinesJoin(s: string)
    ensures forall l :: l in SplitLines(s) ==> NoBreak(l)
    ensures s != [] && s[|s| - 1] == '\n' ==> JoinLines(SplitLines(s)) + "\n" == s
    ensures s != [] && s[|s| - 1] != '\n' ==> JoinLines(SplitLines(s)) == s
  {
    if s != [] && s[|s| - 1] == '\n' {
      SplitJoin(s[..|s| - 1]);
      assert s[..|s| - 1] + "\n" == s;
    } else {
      SplitJoin(s);
    }
  }

  /** The first newline at or after `i` is the one the caller can see. */
  lemma {:induction false} NextBreakAt(s: string, i: nat, e: nat)
    requires i <= e <= |s| && LineEnd(s, e)
    requires forall k :: i <= k < e ==> s[k] != '\n'
    ensures NextBreak(s, i) == e
    decreases e - i
  {
    if i < e {
      NextBreakAt(s, i + 1, e);
    }
  }

  /** The line that starts at `|p|` runs up to the next newline or the end. */
  lemma LineAfter(p: string, l: string, rest: string, s: string, e: nat)
    requires NoBreak(l) && (rest == [] || rest[0] == '\n')
    requires s == p + l + rest && e == |p| + |l|
    ensures NextBreak(s, |p|) == e
    ensures s[|p|..e] == l
  {
    assert s[|p|..|p| + |l|] == l;
    forall k | |p| <= k < |p| + |l|
      ensures s[k] != '\n'
    {
      assert s[k] == l[k - |p|];
    }
    if rest != [] {
      assert s[|p| + |l|] == rest[0];
    }
    NextBreakAt(s, |p|, |p| + |l|);
  }

  lemma {:induction false} SplitFromJoined(p: string, ls: seq<string>)
    requires ls != [] && forall l :: l in ls ==> NoBreak(l)
    ensures SplitFrom(p + JoinLines(ls), |p|) == ls
    decreases |ls|
  {
    assert ls[0] in ls;
    if |ls| == 1 {
      assert p + JoinLines(ls) == p + ls[0] + [];
      LineAfter(p, ls[0], [], p + JoinLines(ls), |p| + |ls[0]|);
    } else {
      NoBreakRest(ls);
      var q := p + ls[0] + "\n";
      SplitFromJoined(q, ls[1..]);
      SplitFromJoinedShift(p, ls, q, JoinLines(ls[1..]));
    }
  }

  lemma NoBreakRest(ls: seq<string>)
    requires ls != [] && forall l :: l in ls ==> NoBreak(l)
    ensures NoBreak(ls[0]) && forall l :: l in ls[1..] ==> NoBreak(l)
  {
    assert ls[0] in ls;
    assert forall l :: l in ls[1..] ==> l in ls;
  }

  /** The recursive case of `SplitFromJoined`, with the first line moved back out of the prefix. */
  lemma SplitFromJoinedShift(p: string, ls: seq<string>, q: string, tail: string)
    requires |ls| > 1 && NoBreak(ls[0])
    requires q == p + ls[0] + "\n" && tail == JoinLines(ls[1..])
    requires SplitFrom(q + tail, |q|) == ls[1..]
    ensures SplitFrom(p + JoinLines(ls), |p|) == ls
  {
    var s := p + JoinLines(ls);
    var e := |p| + |ls[0]|;
    JoinedShift(p, ls);
    SameSplitFrom(q + tail, s, |q|, e + 1, ls[1..]);
    SplitFromJoinedStep(p, ls, s, tail, e);
  }

  lemma SameSplitFrom(a: string, b: string, n: nat, m: nat, ls: seq<string>)
    requires a == b && n == m && n <= |a| && SplitFrom(a, n) == ls
    ensures SplitFrom(b, m) == ls
  {
  }

  /** Moving the first line and its newline into the prefix leaves the text as it is. */
  lemma JoinedShift(p: string, ls: seq<string>)
    requires |ls| > 1
    ensures (p + ls[0] + "\n") + JoinLines(ls[1..]) == p + JoinLines(ls)
    ensures p + JoinLines(ls) == p + ls[0] + ("\n" + JoinLines(ls[1..]))
  {
    JoinCons(ls[0], ls[1..]);
    assert [ls[0]] + ls[1..] == ls;
    ConcatAssoc(p, ls[0], "\n" + JoinLines(ls[1..]));
    ConcatAssoc(p + ls[0], "\n", JoinLines(ls[1..]));
  }

  /** The induction step of `SplitFromJoined`: the first line, then the lines after its newline. */
  lemma SplitFromJoinedStep(p: string, ls: seq<string>, s: string, tail: string, e: nat)
    requires |ls| > 1 && NoBreak(ls[0])
    requires s == p + ls[0] + ("\n" + tail) && e == |p| + |ls[0]|
    requires SplitFrom(s, e + 1) == ls[1..]
    ensures SplitFrom(s, |p|) == ls
  {
    LineAfter(p, ls[0], "\n" + tail, s, e);
    SplitStepAt(s, |p|, e);
    ConsIs(SplitFrom(s, |p|), s[|p|..e], SplitFrom(s, e + 1), ls);
  }

  lemma SplitStepAt(s: string, i: nat, e: nat)
    requires i <= |s| && e == NextBreak(s, i) && e < |s|
    ensures SplitFrom(s, i) == [s[i..e]] + SplitFrom(s, e + 1)
  {
    SplitStep(s, i);
  }

  lemma ConsIs<T>(whole: seq<T>, x: T, rest: seq<T>, ls: seq<T>)
    requires ls != [] && whole == [x] + rest && x == ls[0] && rest == ls[1..]
    ensures whole == ls
  {
    assert [ls[0]] + ls[1..] == ls;
  }

  /** Joining lines without newlines and splitting again gives the lines back. */
  lemma JoinSplit(ls: seq<string>)
    requires ls != [] && forall l :: l in ls ==> NoBreak(l)
    ensures Split(JoinLines(ls)) == ls
  {
    SplitFromJoined([], ls);
    assert [] + JoinLines(ls) == JoinLines(ls);
  }

  // ---------------------------------------------------------------------
  // The per-line reading of the fence substitution
  // ---------------------------------------------------------------------

  /** A trailing "```" removed, if there is one. */
  function DropClose(l: string): string
  {
    if |l| >= |Close| && l[|l| - |Close|..] == Close then l[..|l| - |Close|] else l
  }

  /** One line with a leading "```json" and then a trailing "```" removed. */
  function StripFenceLine(l: string): string
  {
    DropClose(if |l| >= |Open| && l[..|Open|] == Open then l[|Open|..] else l)
  }

  function MapStripFenceLine(ls: seq<string>): (r: seq<string>)
    ensures |r| == |ls|
  {
    if ls == [] then [] else [StripFenceLine(ls[0])] + MapStripFenceLine(ls[1..])
  }

  lemma MapCons(x: string, ys: seq<string>)
    ensures MapStripFenceLine([x] + ys) == [StripFenceLine(x)] + MapStripFenceLine(ys)
  {
    assert ([x] + ys)[1..] == ys;
  }

  /** The reference: fences removed from every line on its own. */
  function StripFencesByLine(s: string): string
  {
    JoinLines(MapStripFenceLine(Split(s)))
  }

  /** Each line loses at most a leading "```json" and a trailing "```", and nothing else. */
  lemma StripFenceLineShape(l: string)
    ensures exists pre, post :: pre in {[], Open} && post in {[], Close}
                                && l == pre + StripFenceLine(l) + post
  {
    var fenced := |l| >= |Open| && l[..|Open|] == Open;
    var a := if fenced then l[|Open|..] else l;
    var pre := if fenced then Open else [];
    var post := if |a| >= |Close| && a[|a| - |Close|..] == Close then Close else [];
    assert l == pre + a by {
      if fenced {
        assert l == l[..|Open|] + l[|Open|..];
      }
    }
    assert a == DropClose(a) + post by {
      DropCloseSplit(a);
    }
    assert StripFenceLine(l) == DropClose(a);
    ConcatAssoc(pre, DropClose(a), post);
  }

  lemma DropCloseSplit(a: string)
    ensures a == DropClose(a) + (if |a| >= |Close| && a[|a| - |Close|..] == Close then Close else [])
  {
    if |a| >= |Close| && a[|a| - |Close|..] == Close {
      assert a == a[..|a| - |Close|] + a[|a| - |Close|..];
    }
  }

  /** A pattern does not occur where one of its characters is contradicted. */
  lemma Mismatch(s: string, i: nat, q: string, k: nat)
    requires i <= k < |s| && k - i < |q| && s[k] != q[k - i]
    ensures !OccursAt(s, i, q)
  {
    if i + |q| <= |s| {
      assert s[i..i + |q|][k - i] == s[k];
    }
  }

  /** Inside a line no fence starts except a "```" that ends it. */
  lemma NoFenceInside(s: string, a: nat, e: nat)
    requires a < e <= |s| && LineEnd(s, e)
    requires forall k :: a <= k < e ==> s[k] != '\n'
    requires !(LineStart(s, a) && OccursAt(s, a, Open))
    ensures FenceAt(s, a) == (if a + |Close| == e && s[a..e] == Close then Some(e) else None)
  {
    if a + |Close| < e {
      assert !LineEnd(s, a + |Close|);
    } else if a + |Close| > e && e < |s| {
      Mismatch(s, a, Close, e);
    }
  }

  lemma DropCloseCons(c: char, x: string)
    requires |x| >= |Close| || [c] + x != Close
    ensures DropClose([c] + x) == [c] + DropClose(x)
  {
    var y := [c] + x;
    if |x| >= |Close| {
      assert y[|y| - |Close|..] == x[|x| - |Close|..];
      assert y[..|y| - |Close|] == [c] + x[..|x| - |Close|];
    }
  }

  lemma ScanCopy(s: string, a: nat)
    requires a < |s| && FenceAt(s, a) == None
    ensures StripFencesFrom(s, a) == [s[a]] + StripFencesFrom(s, a + 1)
  {
  }

  lemma DropCloseStep(s: string, a: nat, e: nat)
    requires a < e <= |s|
    requires !(a + |Close| == e && s[a..e] == Close)
    ensures DropClose(s[a..e]) == [s[a]] + DropClose(s[a + 1..e])
  {
    assert s[a..e] == [s[a]] + s[a + 1..e];
    DropCloseCons(s[a], s[a + 1..e]);
  }

  /** A closing fence that ends the line is deleted. */
  lemma ScanClose(s: string, a: nat, e: nat)
    requires a + |Close| == e <= |s| && LineEnd(s, e) && s[a..e] == Close
    requires !(LineStart(s, a) && OccursAt(s, a, Open))
    ensures StripFencesFrom(s, a) == DropClose(s[a..e]) + StripFencesFrom(s, e)
  {
    assert OccursAt(s, a, Close);
    assert FenceAt(s, a) == Some(e);
    assert DropClose(s[a..e]) == [];
  }

  /** From a position inside a line, the scan removes only a closing fence at the end. */
  lemma {:induction false} ScanLineTail(s: string, a: nat, e: nat)
    requires a <= e <= |s| && LineEnd(s, e)
    requires forall k :: a <= k < e ==> s[k] != '\n'
    requires a == e || !(LineStart(s, a) && OccursAt(s, a, Open))
    ensures StripFencesFrom(s, a) == DropClose(s[a..e]) + StripFencesFrom(s, e)
    decreases e - a
  {
    if a < e {
      if a + |Close| == e && s[a..e] == Close {
        ScanClose(s, a, e);
      } else {
        InsideLine(s, a, e);
        ScanLineTail(s, a + 1, e);
        ScanTailStep(s, a, e);
      }
    }
  }

  lemma InsideLine(s: string, a: nat, e: nat)
    requires a < e <= |s|
    requires forall k :: a <= k < e ==> s[k] != '\n'
    ensures !LineStart(s, a + 1)
    ensures forall k :: a + 1 <= k < e ==> s[k] != '\n'
  {
    assert s[a] != '\n';
  }

  /** The induction step of `ScanLineTail`: a character that is not a closing fence is copied. */
  lemma ScanTailStep(s: string, a: nat, e: nat)
    requires a < e <= |s| && LineEnd(s, e)
    requires forall k :: a <= k < e ==> s[k] != '\n'
    requires !(LineStart(s, a) && OccursAt(s, a, Open))
    requires !(a + |Close| == e && s[a..e] == Close)
    requires StripFencesFrom(s, a + 1) == DropClose(s[a + 1..e]) + StripFencesFrom(s, e)
    ensures StripFencesFrom(s, a) == DropClose(s[a..e]) + StripFencesFrom(s, e)
  {
    assert StripFencesFrom(s, a) == [s[a]] + StripFencesFrom(s, a + 1) by {
      NoFenceInside(s, a, e);
      ScanCopy(s, a);
    }
    assert DropClose(s[a..e]) == [s[a]] + DropClose(s[a + 1..e]) by {
      DropCloseStep(s, a, e);
    }
    ConcatAssoc([s[a]], DropClose(s[a + 1..e]), StripFencesFrom(s, e));
  }

  /** From the start of a line, the scan does to that line what `StripFenceLine` does. */
  lemma ScanLine(s: string, i: nat)
    requires i <= |s| && LineStart(s, i)
    ensures StripFencesFrom(s, i) == StripFenceLine(s[i..NextBreak(s, i)]) + StripFencesFrom(s, NextBreak(s, i))
  {
    var e := NextBreak(s, i);
    if |s[i..e]| >= |Open| && s[i..e][..|Open|] == Open {
      ScanFencedLine(s, i, e);
    } else {
      ScanPlainLine(s, i, e);
    }
  }

  /** A line that opens with "```json": the opening fence goes, then the rest of the line is scanned. */
  lemma ScanFencedLine(s: string, i: nat, e: nat)
    requires i <= |s| && LineStart(s, i) && e == NextBreak(s, i)
    requires |s[i..e]| >= |Open| && s[i..e][..|Open|] == Open
    ensures StripFencesFrom(s, i) == StripFenceLine(s[i..e]) + StripFencesFrom(s, e)
  {
    FencedLineParts(s, i, e);
    OpenFenceSkipped(s, i);
    ScanLineRest(s, i, i + |Open|, e);
  }

  /** What a line opening with "```json" is made of: the fence, then a rest at which no line starts. */
  lemma FencedLineParts(s: string, i: nat, e: nat)
    requires i <= e <= |s|
    requires |s[i..e]| >= |Open| && s[i..e][..|Open|] == Open
    ensures i + |Open| <= e && OccursAt(s, i, Open) && !LineStart(s, i + |Open|)
    ensures StripFenceLine(s[i..e]) == DropClose(s[i + |Open|..e])
  {
    assert s[i..i + |Open|] == s[i..e][..|Open|];
    assert s[i + |Open| - 1] == s[i..e][..|Open|][|Open| - 1];
    assert s[i..e][|Open|..] == s[i + |Open|..e];
  }

  /** An opening fence at the start of a line is deleted. */
  lemma OpenFenceSkipped(s: string, i: nat)
    requires i <= |s| && LineStart(s, i) && OccursAt(s, i, Open)
    ensures StripFencesFrom(s, i) == StripFencesFrom(s, i + |Open|)
  {
  }

  /** A line that does not open with "```json": only a closing fence at its end can go. */
  lemma ScanPlainLine(s: string, i: nat, e: nat)
    requires i <= |s| && LineStart(s, i) && e == NextBreak(s, i)
    requires !(|s[i..e]| >= |Open| && s[i..e][..|Open|] == Open)
    ensures StripFencesFrom(s, i) == StripFenceLine(s[i..e]) + StripFencesFrom(s, e)
  {
    assert !OccursAt(s, i, Open) by {
      if e >= i + |Open| {
        assert s[i..e][..|Open|] == s[i..i + |Open|];
      } else if e < |s| {
        Mismatch(s, i, Open, e);
      }
    }
    ScanLineRest(s, i, i, e);
  }

  /** The rest of a line from `a` on, where no opening fence starts at `a`. */
  lemma ScanLineRest(s: string, i: nat, a: nat, e: nat)
    requires i <= a <= e && i <= |s| && e == NextBreak(s, i)
    requires a == e || !(LineStart(s, a) && OccursAt(s, a, Open))
    ensures StripFencesFrom(s, a) == DropClose(s[a..e]) + StripFencesFrom(s, e)
  {
    NextBreakFirst(s, i);
    ScanLineTail(s, a, e);
  }

  /** A newline is copied: no fence starts at it. */
  lemma ScanBreak(s: string, e: nat)
    requires e < |s| && s[e] == '\n'
    ensures StripFencesFrom(s, e) == "\n" + StripFencesFrom(s, e + 1)
  {
    Mismatch(s, e, Open, e);
    Mismatch(s, e, Close, e);
  }

  /** A line, a newline and the joined rest are the join of all the lines. */
  lemma JoinChain(a: string, b: string, c: string, x: string, m: seq<string>, all: seq<string>)
    requires a == x + b
    requires b == "\n" + c
    requires c == JoinLines(m)
    requires m != []
    requires all == [x] + m
    ensures a == JoinLines(all)
  {
    JoinCons(x, m);
  }

  /** The scan of a line followed by a newline: the line's substitution, the newline, the scan after it. */
  lemma ScanLineBreak(s: string, i: nat, e: nat)
    requires i <= |s| && LineStart(s, i) && e == NextBreak(s, i) && e < |s|
    ensures StripFencesFrom(s, i) == StripFenceLine(s[i..e]) + ("\n" + StripFencesFrom(s, e + 1))
  {
    ScanLine(s, i);
    assert s[e] == '\n';
    ScanBreak(s, e);
  }

  /** The per-line substitution of the lines from `i`: the first line's, then the rest's. */
  lemma MapSplitStep(s: string, i: nat, e: nat)
    requires i <= |s| && e == NextBreak(s, i) && e < |s|
    ensures MapStripFenceLine(SplitFrom(s, i)) == [StripFenceLine(s[i..e])] + MapStripFenceLine(SplitFrom(s, e + 1))
    ensures MapStripFenceLine(SplitFrom(s, e + 1)) != []
  {
    SplitStep(s, i);
    MapConsOf(SplitFrom(s, i), s[i..e], SplitFrom(s, e + 1));
  }

  lemma MapConsOf(ls: seq<string>, x: string, ys: seq<string>)
    requires ls == [x] + ys && |ys| >= 1
    ensures MapStripFenceLine(ls) == [StripFenceLine(x)] + MapStripFenceLine(ys)
    ensures MapStripFenceLine(ys) != []
  {
    MapCons(x, ys);
  }

  /** The line after a newline starts right past it. */
  lemma NextLineStart(s: string, i: nat, e: nat)
    requires i <= |s| && e == NextBreak(s, i) && e < |s|
    ensures i <= e && e + 1 <= |s| && LineStart(s, e + 1)
  {
  }

  /** The induction step of `ScanFrom`: one line and its newline. */
  lemma ScanFromStep(s: string, i: nat, e: nat)
    requires i <= |s| && LineStart(s, i) && e == NextBreak(s, i) && e < |s|
    requires StripFencesFrom(s, e + 1) == JoinLines(MapStripFenceLine(SplitFrom(s, e + 1)))
    ensures StripFencesFrom(s, i) == JoinLines(MapStripFenceLine(SplitFrom(s, i)))
  {
    ScanLineBreak(s, i, e);
    MapSplitStep(s, i, e);
    JoinChain(StripFencesFrom(s, i), "\n" + StripFencesFrom(s, e + 1), StripFencesFrom(s, e + 1),
              StripFenceLine(s[i..e]), MapStripFenceLine(SplitFrom(s, e + 1)), MapStripFenceLine(SplitFrom(s, i)));
  }

  /** The last line: no newline follows it. */
  lemma ScanFromLast(s: string, i: nat)
    requires i <= |s| && LineStart(s, i) && NextBreak(s, i) == |s|
    ensures StripFencesFrom(s, i) == JoinLines(MapStripFenceLine(SplitFrom(s, i)))
  {
    var e := NextBreak(s, i);
    assert StripFencesFrom(s, i) == StripFenceLine(s[i..e]) + StripFencesFrom(s, e) by { ScanLine(s, i); }
    assert SplitFrom(s, i) == [s[i..e]];
    assert StripFencesFrom(s, e) == [];
  }

  lemma {:induction false} ScanFrom(s: string, i: nat)
    requires i <= |s| && LineStart(s, i)
    ensures StripFencesFrom(s, i) == JoinLines(MapStripFenceLine(SplitFrom(s, i)))
    decreases |s| - i
  {
    var e := NextBreak(s, i);
    if e < |s| {
      NextLineStart(s, i, e);
      ScanFrom(s, e + 1);
      ScanFromStep(s, i, e);
    } else {
      ScanFromLast(s, i);
    }
  }

  /**
   * The multi-line substitution is exactly the per-line one: a leading
   * "```json" and a trailing "```" are removed from each line, and the
   * newlines stay.
   */
  lemma StripFencesIsPerLine(s: string)
    ensures StripFences(s) == StripFencesByLine(s)
  {
    ScanFrom(s, 0);
  }

  lemma {:induction false} NoBacktickFrom(s: string, i: nat)
    requires i <= |s|
    requires '`' !in s
    ensures StripFencesFrom(s, i) == s[i..]
    decreases |s| - i
  {
    if i < |s| {
      assert s[i] != '`';
      Mismatch(s, i, Open, i);
      Mismatch(s, i, Close, i);
      NoBacktickFrom(s, i + 1);
      assert s[i..] == [s[i]] + s[i + 1..];
    }
  }

  /** A reply without a backtick is not changed by the fence substitution. */
  lemma NoBacktickUnchanged(s: string)
    requires '`' !in s
    ensures StripFences(s) == s
  {
    NoBacktickFrom(s, 0);
  }

  // ---------------------------------------------------------------------
  // Dropping "E0000" diagnostic lines
  // ---------------------------------------------------------------------

  const Diagnostic: string := "E0000"

  /** `line.strip().startswith("E0000")`. */
  predicate IsDiagnostic(l: string)
  {
    var t := Strip(l);
    |t| >= |Diagnostic| && t[..|Diagnostic|] == Diagnostic
  }

  function DropDiagnostics(ls: seq<string>): (r: seq<string>)
    ensures |r| <= |ls|
    ensures forall l :: l in r ==> l in ls && !IsDiagnostic(l)
  {
    if ls == [] then []
    else if IsDiagnostic(ls[0]) then DropDiagnostics(ls[1..])
    else [ls[0]] + DropDiagnostics(ls[1..])
  }

  /**
   * The kept lines are the non-diagnostic lines, in their order; a line is
   * missing only when it is a diagnostic, and every other line is kept as
   * many times as it occurs.
   */
  lemma {:induction false} DropDiagnosticsSpec(ls: seq<string>)
    ensures IsSubseq(DropDiagnostics(ls), ls)
    ensures forall l :: l in ls ==> (l in DropDiagnostics(ls) <==> !IsDiagnostic(l))
    ensures forall l :: multiset(DropDiagnostics(ls))[l] == if IsDiagnostic(l) then 0 else multiset(ls)[l]
  {
    if ls != [] {
      DropDiagnosticsSpec(ls[1..]);
      var r := DropDiagnostics(ls);
      if !IsDiagnostic(ls[0]) {
        assert r[0] == ls[0] && r[1..] == DropDiagnostics(ls[1..]);
      }
      assert forall l :: l in ls ==> l == ls[0] || l in ls[1..];
      DropCounts(ls, DropDiagnostics(ls[1..]));
    }
  }

  /** One step of the multiplicity count: the head line is counted in or out. */
  lemma DropCounts(ls: seq<string>, rest: seq<string>)
    requires ls != [] && rest == DropDiagnostics(ls[1..])
    requires forall l :: multiset(rest)[l] == if IsDiagnostic(l) then 0 else multiset(ls[1..])[l]
    ensures forall l :: multiset(DropDiagnostics(ls))[l] == if IsDiagnostic(l) then 0 else multiset(ls)[l]
  {
    var h, d := ls[0], DropDiagnostics(ls);
    var keep := !IsDiagnostic(h);
    HeadCount(ls);
    if keep {
      DropKeepsHead(ls, rest);
      HeadCount(d);
    } else {
      DropSkipsHead(ls, rest);
    }
    forall l
      ensures multiset(d)[l] == if IsDiagnostic(l) then 0 else multiset(ls)[l]
    {
      assert multiset(rest)[l] == if IsDiagnostic(l) then 0 else multiset(ls[1..])[l];
    }
  }

  /** Counting a non-empty sequence: its head once, plus its tail. */
  lemma HeadCount(ls: seq<string>)
    requires ls != []
    ensures multiset(ls) == multiset{ls[0]} + multiset(ls[1..])
  {
    assert ls == [ls[0]] + ls[1..];
  }

  lemma DropSkipsHead(ls: seq<string>, rest: seq<string>)
    requires ls != [] && IsDiagnostic(ls[0]) && rest == DropDiagnostics(ls[1..])
    ensures DropDiagnostics(ls) == rest
  {
  }

  /** Without diagnostic lines the filter keeps every line. */
  lemma {:induction false} DropNone(ls: seq<string>)
    requires forall l :: l in ls ==> !IsDiagnostic(l)
    ensures DropDiagnostics(ls) == ls
  {
    if ls != [] {
      assert ls[0] in ls;
      assert forall l :: l in ls[1..] ==> l in ls;
      DropNone(ls[1..]);
      DropKeepsHead(ls, ls[1..]);
    }
  }

  lemma DropKeepsHead(ls: seq<string>, rest: seq<string>)
    requires ls != [] && !IsDiagnostic(ls[0]) && rest == DropDiagnostics(ls[1..])
    ensures DropDiagnostics(ls) == [ls[0]] + rest
  {
  }

  /** The clean-up of the single-call path, lines 94-97. */
  function CleanReply(raw: string): (r: string)
    ensures r == Strip(r)
  {
    var t := Strip(StripFences(Strip(raw)));
    Strip(JoinLines(DropDiagnostics(SplitLines(t))))
  }

  /** The clean-up of the batch path, line 139: no diagnostic lines are dropped. */
  function CleanBatchReply(raw: string): (r: string)
    ensures r == Strip(r)
  {
    Strip(StripFences(Strip(raw)))
  }

  // ---------------------------------------------------------------------
  // re.search(r"\{[\s\S]*\}", s)
  // ---------------------------------------------------------------------

  /** The index of the first `c` in `s`, or `|s|`. */
  function FirstIndex(s: string, c: char): (i: nat)
    ensures i <= |s| && (i < |s| ==> s[i] == c)
    ensures forall k :: 0 <= k < i ==> s[k] != c
  {
    if s == [] then 0
    else if s[0] == c then 0
    else 1 + FirstIndex(s[1..], c)
  }

  lemma {:induction false} FirstIndexPrefix(x: string, y: string, c: char)
    requires c in x
    ensures FirstIndex(x + y, c) == FirstIndex(x, c)
  {
    if x[0] != c {
      assert (x + y)[1..] == x[1..] + y;
      FirstIndexPrefix(x[1..], y, c);
    }
  }

  /** The index of the last `c` in `s`, or -1. */
  function LastIndex(s: string, c: char): (i: int)
    ensures -1 <= i < |s| && (i >= 0 ==> s[i] == c)
    ensures forall k :: i < k < |s| ==> s[k] != c
  {
    if s == [] then -1
    else if s[|s| - 1] == c then |s| - 1
    else LastIndex(s[..|s| - 1], c)
  }

  /** A '{' at `a` and a '}' after it at `b`. */
  predicate SpanAt(s: string, a: int, b: int)
  {
    0 <= a < b < |s| && s[a] == '{' && s[b] == '}'
  }

  /** `\{[\s\S]*\}` matches somewhere in `s`. */
  predicate HasSpan(s: string)
  {
    exists a, b | 0 <= a < b < |s| :: SpanAt(s, a, b)
  }

  /**
   * The greedy match: it starts at the leftmost '{' that some '}' follows,
   * which is the first '{', and ends at the last '}'.
   */
  function Block(s: string): (r: Option<string>)
    ensures r.Some? <==> HasSpan(s)
    ensures r.Some? ==> exists a, b :: SpanAt(s, a, b) && r.value == s[a..b + 1]
                         && (forall k :: 0 <= k < a ==> s[k] != '{')
                         && (forall k :: b < k < |s| ==> s[k] != '}')
  {
    var a := FirstIndex(s, '{');
    var b := LastIndex(s, '}');
    if a < b then
      assert SpanAt(s, a, b);
      Some(s[a..b + 1])
    else None
  }

  /** The span between the first '{' and the last '}'. */
  lemma BlockAt(s: string, a: nat, b: int)
    requires a == FirstIndex(s, '{') && b == LastIndex(s, '}') && a < b
    ensures Block(s) == Some(s[a..b + 1])
  {
    assert SpanAt(s, a, b);
  }

  /** The search written as the two scans a regex engine's backtracking amounts to. */
  method FindBlock(s: string) returns (r: Option<string>)
    ensures r == Block(s)
  {
    var a := 0;
    while a < |s| && s[a] != '{'
      invariant a <= |s|
      invariant forall k :: 0 <= k < a ==> s[k] != '{'
    {
      a := a + 1;
    }
    var b := |s| - 1;
    while b > a && s[b] != '}'
      invariant a <= |s| && a - 1 <= b < |s|
      invariant forall k :: b < k < |s| ==> s[k] != '}'
    {
      b := b - 1;
    }
    assert a == FirstIndex(s, '{');
    if a < b {
      assert b == LastIndex(s, '}');
      r := Some(s[a..b + 1]);
    } else {
      assert LastIndex(s, '}') <= a;
      r := None;
    }
  }
}
