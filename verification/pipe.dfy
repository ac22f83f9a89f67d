/**
 * Clean-up of masked text before summarisation: whitespace collapsing
 * (`preprocess_text`) and the placeholder rewording (`normalize_placeholders`).
 */
module Pipe {
  import opened Text

  // ---------------------------------------------------------------
  // preprocess_text
  // ---------------------------------------------------------------

  /** The non-whitespace characters of `s`, in order. */
  function NonSpace(s: string): string
    decreases |s|
  {
    if s == [] then []
    else (if IsSpace(s[0]) then [] else [s[0]]) + NonSpace(s[1..])
  }

  /** Whitespace at both `k` and `k + 1`. */
  predicate Doubled(r: string, k: nat)
    requires k + 1 < |r|
  {
    IsSpace(r[k]) && IsSpace(r[k + 1])
  }

  /** The only whitespace is the plain space, and no two whitespace characters touch. */
  predicate Squeezed(r: string) {
    && (forall k :: 0 <= k < |r| && IsSpace(r[k]) ==> r[k] == ' ')
    && (forall k: nat :: k + 1 < |r| ==> !Doubled(r, k))
  }

  /** No whitespace at either end. */
  predicate Trimmed(r: string) {
    r == [] || (!IsSpace(r[0]) && !IsSpace(r[|r| - 1]))
  }

  lemma {:induction false} NonSpaceConcat(a: string, b: string)
    ensures NonSpace(a + b) == NonSpace(a) + NonSpace(b)
    decreases |a|
  {
    if a == [] {
      assert a + b == b;
    } else {
      assert (a + b)[0] == a[0];
      assert (a + b)[1..] == a[1..] + b;
      NonSpaceConcat(a[1..], b);
    }
  }

  lemma {:induction false} NonSpaceOfBlanks(t: string)
    requires forall k :: 0 <= k < |t| ==> IsSpace(t[k])
    ensures NonSpace(t) == []
    decreases |t|
  {
    if t != [] {
      NonSpaceOfBlanks(t[1..]);
    }
  }

  lemma StripLeftKeepsNonSpace(s: string)
    ensures NonSpace(StripLeft(s)) == NonSpace(s)
  {
    BlankPrefixKeepsNonSpace(s, StripLeft(s));
  }

  /** A suffix behind only whitespace has the same non-whitespace characters as the whole text. */
  lemma BlankPrefixKeepsNonSpace(s: string, l: string)
    requires |l| <= |s| && l == s[|s| - |l|..]
    requires forall k :: 0 <= k < |s| - |l| ==> IsSpace(s[k])
    ensures NonSpace(l) == NonSpace(s)
  {
    var a := |s| - |l|;
    var blanks := s[..a];
    assert s == blanks + l;
    assert forall k :: 0 <= k < |blanks| ==> IsSpace(blanks[k]);
    NonSpaceConcat(blanks, l);
    NonSpaceOfBlanks(blanks);
    assert [] + NonSpace(l) == NonSpace(l);
  }

  /** Prepending one character keeps text squeezed unless it makes two whitespace characters touch. */
  lemma SqueezedCons(c: char, t: string)
    requires Squeezed(t)
    requires IsSpace(c) ==> c == ' ' && (t == [] || !IsSpace(t[0]))
    ensures Squeezed([c] + t)
  {
    var r := [c] + t;
    forall k: nat | k + 1 < |r|
      ensures !Doubled(r, k)
    {
      if k > 0 {
        assert r[k] == t[k - 1] && r[k + 1] == t[k];
        assert !Doubled(t, k - 1);
      }
    }
  }

  /** Every slice of squeezed text is squeezed. */
  lemma SqueezedSlice(c: string, a: nat, b: nat)
    requires a <= b <= |c|
    requires Squeezed(c)
    ensures Squeezed(c[a..b])
  {
    var r := c[a..b];
    forall k: nat | k + 1 < |r|
      ensures !Doubled(r, k)
    {
      assert r[k] == c[a + k] && r[k + 1] == c[a + k + 1];
      assert !Doubled(c, a + k);
    }
  }

  /**
   * `re.sub(r"\s+", " ", s)` read left to right. `inRun` says that the
   * character before `s` was whitespace, whose run already produced its space.
   */
  function CollapseFrom(s: string, inRun: bool): (r: string)
    ensures inRun ==> r == [] || !IsSpace(r[0])
    ensures !inRun && s != [] ==> r != [] && (IsSpace(r[0]) <==> IsSpace(s[0]))
    decreases |s|
  {
    if s == [] then []
    else if IsSpace(s[0]) then (if inRun then [] else [' ']) + CollapseFrom(s[1..], true)
    else [s[0]] + CollapseFrom(s[1..], false)
  }

  /** Each maximal run of whitespace becomes one space. */
  function Collapse(s: string): string {
    CollapseFrom(s, false)
  }

  /** Collapsed text is squeezed. */
  lemma {:induction false} CollapseSqueezed(s: string, inRun: bool)
    ensures Squeezed(CollapseFrom(s, inRun))
    decreases |s|
  {
    if s != [] {
      var r' := CollapseFrom(s[1..], IsSpace(s[0]));
      CollapseSqueezed(s[1..], IsSpace(s[0]));
      if IsSpace(s[0]) {
        if !inRun {
          SqueezedCons(' ', r');
        } else {
          assert [] + r' == r';
        }
      } else {
        SqueezedCons(s[0], r');
      }
    }
  }

  /** Collapsing drops whitespace only: the other characters survive, in order. */
  lemma {:induction false} CollapseKeepsNonSpace(s: string, inRun: bool)
    ensures NonSpace(CollapseFrom(s, inRun)) == NonSpace(s)
    decreases |s|
  {
    if s != [] {
      var r' := CollapseFrom(s[1..], IsSpace(s[0]));
      CollapseKeepsNonSpace(s[1..], IsSpace(s[0]));
      if IsSpace(s[0]) {
        NonSpaceConcat(if inRun then [] else [' '], r');
      } else {
        NonSpaceConcat([s[0]], r');
      }
    }
  }

  /** `preprocess_text`: collapse whitespace runs, then `str.strip()`. */
  function Preprocess(s: string): (r: string)
    ensures Trimmed(r)
    ensures Squeezed(r)
    ensures NonSpace(r) == NonSpace(s)
  {
    var c := Collapse(s);
    var r := Strip(c);
    var a: nat :| TrimmedSliceAt(c, a, r);
    CollapseKeepsNonSpace(s, false);
    CollapseSqueezed(s, false);
    SliceKeepsNonSpace(c, a, r);
    r
  }

  /** A slice that only whitespace surrounds keeps the whole text's non-whitespace and its squeezing. */
  lemma SliceKeepsNonSpace(c: string, a: nat, r: string)
    requires TrimmedSliceAt(c, a, r)
    requires Squeezed(c)
    ensures Squeezed(r)
    ensures NonSpace(r) == NonSpace(c)
  {
    assert c == c[..a] + r + c[a + |r|..];
    NonSpaceConcat(c[..a] + r, c[a + |r|..]);
    NonSpaceConcat(c[..a], r);
    NonSpaceOfBlanks(c[..a]);
    NonSpaceOfBlanks(c[a + |r|..]);
    SqueezedSlice(c, a, a + |r|);
  }

  /** Squeezed text has nothing left to collapse. */
  lemma {:induction false} CollapseFixed(t: string, inRun: bool)
    requires Squeezed(t)
    requires inRun ==> t == [] || !IsSpace(t[0])
    ensures CollapseFrom(t, inRun) == t
    decreases |t|
  {
    if t != [] {
      SqueezedSlice(t, 1, |t|);
      assert t[1..|t|] == t[1..];
      assert |t| > 1 ==> !Doubled(t, 0);
      CollapseFixed(t[1..], IsSpace(t[0]));
      assert [t[0]] + t[1..] == t;
    }
  }

  /** Running `preprocess_text` twice changes nothing the first run did not. */
  lemma PreprocessIdempotent(s: string)
    ensures Preprocess(Preprocess(s)) == Preprocess(s)
  {
    var t := Preprocess(s);
    CollapseFixed(t, false);
    assert Strip(t) == t;
  }

  // ---------------------------------------------------------------
  // Reference: `" ".join(s.split())`
  // ---------------------------------------------------------------

  predicate NoSpace(w: string) {
    forall k :: 0 <= k < |w| ==> !IsSpace(w[k])
  }

  /** Length of the run of non-whitespace characters starting at `i`. */
  function WordLen(s: string, i: nat): (n: nat)
    requires i <= |s|
    ensures i + n <= |s|
    ensures forall k :: i <= k < i + n ==> !IsSpace(s[k])
    ensures i + n == |s| || IsSpace(s[i + n])
    decreases |s| - i
  {
    if i < |s| && !IsSpace(s[i]) then 1 + WordLen(s, i + 1) else 0
  }

  /** Python's `str.split()` with no argument: the maximal runs of non-whitespace, in order. */
  function Words(s: string): seq<string>
    decreases |s|
  {
    if s == [] then []
    else if IsSpace(s[0]) then Words(s[1..])
    else
      var n := WordLen(s, 0);
      [s[..n]] + Words(s[n..])
  }

  /** Python's `" ".join(ws)`. */
  function Join(ws: seq<string>): string
    decreases |ws|
  {
    if ws == [] then []
    else if |ws| == 1 then ws[0]
    else ws[0] + " " + Join(ws[1..])
  }

  lemma WordLenExact(s: string, i: nat, e: nat)
    requires i <= e <= |s|
    requires forall k :: i <= k < e ==> !IsSpace(s[k])
    requires e == |s| || IsSpace(s[e])
    ensures WordLen(s, i) == e - i
    decreases e - i
  {
    if i < e {
      WordLenExact(s, i + 1, e);
    }
  }

  /** A word followed by whitespace or the end contributes exactly itself. */
  lemma WordsAfterWord(w: string, c: string)
    requires w != [] && NoSpace(w)
    requires c == [] || IsSpace(c[0])
    ensures Words(w + c) == [w] + Words(c)
  {
    var u := w + c;
    WordLenExact(u, 0, |w|);
    assert u[..|w|] == w;
    assert u[|w|..] == c;
  }

  /** Leading whitespace does not change the words. */
  lemma {:induction false} WordsBlankPrefix(b: string, x: string)
    requires forall k :: 0 <= k < |b| ==> IsSpace(b[k])
    ensures Words(b + x) == Words(x)
    decreases |b|
  {
    if b == [] {
      assert b + x == x;
    } else {
      assert (b + x)[1..] == b[1..] + x;
      WordsBlankPrefix(b[1..], x);
    }
  }

  /** Trailing whitespace does not change the words. */
  lemma {:induction false} WordsBlankSuffix(x: string, b: string)
    requires forall k :: 0 <= k < |b| ==> IsSpace(b[k])
    ensures Words(x + b) == Words(x)
    decreases |x|
  {
    if x == [] {
      assert x + b == b + [];
      WordsBlankPrefix(b, []);
    } else if IsSpace(x[0]) {
      assert (x + b)[1..] == x[1..] + b;
      WordsBlankSuffix(x[1..], b);
    } else {
      var n := WordLen(x, 0);
      var u := x + b;
      WordLenExact(u, 0, n);
      assert u[..n] == x[..n];
      assert u[n..] == x[n..] + b;
      WordsBlankSuffix(x[n..], b);
    }
  }

  /** A leading word is copied as is. */
  lemma {:induction false} CollapseWord(s: string, n: nat, inRun: bool)
    requires 0 < n <= |s|
    requires forall k :: 0 <= k < n ==> !IsSpace(s[k])
    ensures CollapseFrom(s, inRun) == s[..n] + CollapseFrom(s[n..], false)
    decreases n
  {
    if n > 1 {
      CollapseWord(s[1..], n - 1, false);
      assert s[1..][..n - 1] == s[1..n];
      assert s[1..][n - 1..] == s[n..];
    }
  }

  /** Collapsing whitespace leaves the words unchanged. */
  lemma {:induction false} CollapseKeepsWords(s: string, inRun: bool)
    ensures Words(CollapseFrom(s, inRun)) == Words(s)
    decreases |s|
  {
    if s != [] {
      if IsSpace(s[0]) {
        var r' := CollapseFrom(s[1..], true);
        CollapseKeepsWords(s[1..], true);
        WordsBlankPrefix(if inRun then [] else [' '], r');
      } else {
        var n := WordLen(s, 0);
        var w, rest := s[..n], s[n..];
        CollapseKeepsWords(rest, false);
        CollapseWord(s, n, inRun);
        WordsAfterWord(w, CollapseFrom(rest, false));
      }
    }
  }

  /** A squeezed text without whitespace at its ends is the join of its words. */
  lemma {:induction false} JoinWordsOfSqueezed(r: string)
    requires Trimmed(r) && Squeezed(r)
    ensures Join(Words(r)) == r
    decreases |r|
  {
    if r != [] {
      var n := WordLen(r, 0);
      if n < |r| {
        var rest := r[n + 1..];
        assert r[n] == ' ' && !Doubled(r, n);
        assert r[n..][1..] == rest;
        SqueezedSlice(r, n + 1, |r|);
        assert r[n + 1..|r|] == rest;
        JoinWordsOfSqueezed(rest);
        assert Words(rest) != [];
        assert r == r[..n] + " " + rest;
      } else {
        assert r[..n] == r && r[n..] == [];
      }
    }
  }

  lemma SplitThree(c: string, a: nat, m: nat)
    requires a <= m <= |c|
    ensures c == c[..a] + (c[a..m] + c[m..])
  {
  }

  /** Stripping whitespace from the ends does not change the words. */
  lemma WordsOfTrimmedSlice(c: string, a: nat, r: string)
    requires TrimmedSliceAt(c, a, r)
    ensures Words(r) == Words(c)
  {
    var m := a + |r|;
    SplitThree(c, a, m);
    WordsBlankPrefix(c[..a], r + c[m..]);
    WordsBlankSuffix(r, c[m..]);
  }

  lemma PreprocessSlice(s: string) returns (a: nat)
    ensures TrimmedSliceAt(Collapse(s), a, Preprocess(s))
  {
    a :| TrimmedSliceAt(Collapse(s), a, Strip(Collapse(s)));
  }

  /** `preprocess_text(s)` equals `" ".join(s.split())`. */
  lemma PreprocessIsSplitJoin(s: string)
    ensures Preprocess(s) == Join(Words(s))
  {
    var a := PreprocessSlice(s);
    WordsOfTrimmedSlice(Collapse(s), a, Preprocess(s));
    CollapseKeepsWords(s, false);
    JoinWordsOfSqueezed(Preprocess(s));
  }
}
