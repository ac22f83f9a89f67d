/**
 * Character classes and small string vocabulary shared by every stage.
 *
 * The model is ASCII: a digit is '0'..'9', a word character is
 * [A-Za-z0-9_] (what `\w` and `\b` mean for the masking rules), and the
 * whitespace characters are the ASCII ones Python's `str.isspace` accepts
 * (code points 9-13, 28-31 and the space).
 */
module Text {

  predicate IsDigit(c: char) { '0' <= c <= '9' }

  predicate IsLetter(c: char) { 'a' <= c <= 'z' || 'A' <= c <= 'Z' }

  predicate IsWordChar(c: char) { IsDigit(c) || IsLetter(c) || c == '_' }

  predicate IsSpace(c: char) {
    c == ' ' || 9 <= c as int <= 13 || 28 <= c as int <= 31
  }

  /** ASCII lower-casing; every other character is its own lower case. */
  function Lower(c: char): char {
    if 'A' <= c <= 'Z' then (c as int + 32) as char else c
  }

  function LowerStr(s: string): (r: string)
    ensures |r| == |s|
    ensures forall k :: 0 <= k < |s| ==> r[k] == Lower(s[k])
  {
    seq(|s|, k requires 0 <= k < |s| => Lower(s[k]))
  }

  predicate AllDigits(t: string) {
    forall k :: 0 <= k < |t| ==> IsDigit(t[k])
  }

  /** Length of the maximal run of digits that starts at index `i`. */
  function RunLen(s: string, i: nat): (n: nat)
    requires i <= |s|
    ensures i + n <= |s|
    ensures forall k :: i <= k < i + n ==> IsDigit(s[k])
    ensures i + n == |s| || !IsDigit(s[i + n])
    decreases |s| - i
  {
    if i < |s| && IsDigit(s[i]) then 1 + RunLen(s, i + 1) else 0
  }

  /** `\b` before a word character at `i`: nothing word-like precedes it. */
  predicate WordStart(s: string, i: nat)
    requires i <= |s|
  {
    i == 0 || !IsWordChar(s[i - 1])
  }

  /** `\b` after a word character ending at `e`: nothing word-like follows. */
  predicate WordEnd(s: string, e: nat)
    requires e <= |s|
  {
    e == |s| || !IsWordChar(s[e])
  }

  /** `s[i..e]` is a standalone digit run: digits only, non-word (or the edge) on both sides. */
  predicate StandaloneRun(s: string, i: nat, e: nat)
    requires i <= e <= |s|
  {
    WordStart(s, i) && AllDigits(s[i..e]) && WordEnd(s, e)
  }

  /** `p` occurs at index `i` of `s`, ignoring ASCII case. */
  predicate HasPrefixAt(s: string, i: nat, p: string) {
    i + |p| <= |s| && forall k :: 0 <= k < |p| ==> Lower(s[i + k]) == Lower(p[k])
  }

  /** `q` occurs in `s` at index `i`, case-sensitively. */
  predicate OccursAt(s: string, i: nat, q: string) {
    i + |q| <= |s| && s[i..i + |q|] == q
  }

  /** Python's `q in s`. */
  predicate Occurs(s: string, q: string) {
    exists i: nat | i <= |s| :: OccursAt(s, i, q)
  }

  /** `a` is `b` with some elements removed, the rest in order. */
  predicate IsSubseq<T(==)>(a: seq<T>, b: seq<T>)
    decreases |b|
  {
    if a == [] then true
    else if b == [] then false
    else (a[0] == b[0] && IsSubseq(a[1..], b[1..])) || IsSubseq(a, b[1..])
  }

  lemma ConcatAssoc<T>(x: seq<T>, y: seq<T>, z: seq<T>)
    ensures x + (y + z) == (x + y) + z
  {
  }

  /** A slice with something after it is its first element followed by the rest. */
  lemma SliceOfConcat<T>(x: seq<T>, y: seq<T>, a: nat)
    requires a <= |x|
    ensures (x + y)[a..] == x[a..] + y
    ensures (x + y)[a..|x + y|] == x[a..] + y
  {
  }

  lemma SliceCons<T>(s: seq<T>, i: nat, j: nat, rest: seq<T>)
    requires i < j <= |s|
    ensures s[i..j] + rest == [s[i]] + (s[i + 1..j] + rest)
  {
    assert s[i..j] == [s[i]] + s[i + 1..j];
  }

  /** A digit run is measured exactly by `RunLen` once a non-digit (or the end) bounds it. */
  lemma RunLenExact(s: string, i: nat, e: nat)
    requires i <= e <= |s|
    requires AllDigits(s[i..e])
    requires e == |s| || !IsDigit(s[e])
    ensures RunLen(s, i) == e - i
  {
    forall k | i <= k < e
      ensures IsDigit(s[k])
    {
      assert s[i..e][k - i] == s[k];
    }
  }

  /** A standalone run is a maximal digit run. */
  lemma StandaloneRunLen(s: string, i: nat, e: nat)
    requires i <= e <= |s|
    requires StandaloneRun(s, i, e)
    ensures RunLen(s, i) == e - i
  {
    RunLenExact(s, i, e);
  }

  /** The digits `RunLen` measures, read as a slice. */
  lemma RunLenDigits(s: string, i: nat)
    requires i <= |s|
    ensures AllDigits(s[i..i + RunLen(s, i)])
  {
    RunLenPrefix(s, i, RunLen(s, i));
  }

  /** Every prefix of the measured run is all digits. */
  lemma RunLenPrefix(s: string, i: nat, n: nat)
    requires i <= |s|
    requires n <= RunLen(s, i)
    ensures AllDigits(s[i..i + n])
  {
    var t := s[i..i + n];
    forall k | 0 <= k < |t|
      ensures IsDigit(t[k])
    {
      assert t[k] == s[i + k];
    }
  }

  /** A run measured from `i` stops at the first non-digit `k`. */
  lemma RunLenStops(s: string, i: nat, k: nat)
    requires i <= k < |s| && !IsDigit(s[k])
    ensures RunLen(s, i) <= k - i
  {
  }

  /** A slice of digits starting at `i` is covered by the measured run. */
  lemma RunLenAtLeast(s: string, i: nat, e: nat)
    requires i <= e <= |s|
    requires AllDigits(s[i..e])
    ensures RunLen(s, i) >= e - i
  {
    forall k | i <= k < e
      ensures IsDigit(s[k])
    {
      assert s[i..e][k - i] == s[k];
    }
  }

  // ---------------------------------------------------------------
  // Python's `str.strip()` over the ASCII whitespace above
  // ---------------------------------------------------------------

  function StripLeft(s: string): (r: string)
    ensures |r| <= |s| && r == s[|s| - |r|..]
    ensures r == [] || !IsSpace(r[0])
    ensures forall k :: 0 <= k < |s| - |r| ==> IsSpace(s[k])
  {
    if s != [] && IsSpace(s[0]) then StripLeft(s[1..]) else s
  }

  function StripRight(s: string): (r: string)
    ensures |r| <= |s| && r == s[..|r|]
    ensures r == [] || !IsSpace(r[|r| - 1])
    ensures forall k :: |r| <= k < |s| ==> IsSpace(s[k])
  {
    if s != [] && IsSpace(s[|s| - 1]) then StripRight(s[..|s| - 1]) else s
  }

  /** `r` occurs in `s` at index `a`, and only whitespace surrounds it there. */
  predicate TrimmedSliceAt(s: string, a: nat, r: string) {
    && a + |r| <= |s|
    && s[a..a + |r|] == r
    && (forall k :: 0 <= k < a ==> IsSpace(s[k]))
    && (forall k :: a + |r| <= k < |s| ==> IsSpace(s[k]))
  }

  /** `str.strip()`: the slice left when whitespace is removed from both ends. */
  function Strip(s: string): (r: string)
    ensures r == [] || (!IsSpace(r[0]) && !IsSpace(r[|r| - 1]))
    ensures exists a :: TrimmedSliceAt(s, a, r)
    ensures s == [] || (!IsSpace(s[0]) && !IsSpace(s[|s| - 1])) ==> r == s
  {
    var l := StripLeft(s);
    var r := StripRight(l);
    StripSlice(s, l, r);
    r
  }

  /** Whitespace cut from the left and then from the right leaves a trimmed slice. */
  lemma StripSlice(s: string, l: string, r: string)
    requires |l| <= |s| && l == s[|s| - |l|..] && forall k :: 0 <= k < |s| - |l| ==> IsSpace(s[k])
    requires |r| <= |l| && r == l[..|r|] && forall k :: |r| <= k < |l| ==> IsSpace(l[k])
    ensures TrimmedSliceAt(s, |s| - |l|, r)
  {
    var a := |s| - |l|;
    assert r == s[a..a + |r|];
    forall k | a + |r| <= k < |s|
      ensures IsSpace(s[k])
    {
      assert s[k] == l[k - a];
    }
  }

  /** A non-empty trimmed text surrounded only by whitespace is what `Strip` returns. */
  lemma StripUnique(s: string, a: nat, t: string)
    requires TrimmedSliceAt(s, a, t)
    requires t != [] && !IsSpace(t[0]) && !IsSpace(t[|t| - 1])
    ensures Strip(s) == t
  {
    var r := Strip(s);
    var b: nat :| TrimmedSliceAt(s, b, r);
    TrimmedSlicesMeet(s, a, t, b, r);
  }

  /** Two slices surrounded only by whitespace, the first with non-whitespace ends, are the same slice. */
  lemma TrimmedSlicesMeet(s: string, a: nat, t: string, b: nat, r: string)
    requires TrimmedSliceAt(s, a, t) && TrimmedSliceAt(s, b, r)
    requires t != [] && !IsSpace(t[0]) && !IsSpace(t[|t| - 1])
    requires r == [] || (!IsSpace(r[0]) && !IsSpace(r[|r| - 1]))
    ensures r == t
  {
    assert s[a] == t[0] && s[a + |t| - 1] == t[|t| - 1] by {
      assert s[a..a + |t|][0] == s[a];
      assert s[a..a + |t|][|t| - 1] == s[a + |t| - 1];
    }
    assert r != [] && b == a && |r| == |t| by {
      assert !IsSpace(s[a]) && !IsSpace(s[a + |t| - 1]);
      if r != [] {
        assert s[b] == r[0] && s[b + |r| - 1] == r[|r| - 1] by {
          assert s[b..b + |r|][0] == s[b];
          assert s[b..b + |r|][|r| - 1] == s[b + |r| - 1];
        }
      }
    }
  }
}
