/**
 * The three methods of Python's `str` that `parse_gcs_path` relies on:
 * `replace`, `strip` (no argument) and `split(sep, 1)`, together with the
 * leftmost substring search (`find`) that `replace` and `split` are built on.
 * Strings are sequences of Unicode scalar values: unlike a Python `str`,
 * they cannot hold a lone surrogate.
 */
module PyStr {

  datatype Option<T> = None | Some(value: T)

  /** `p` occurs in `s` starting at index `i`. */
  predicate MatchAt(s: string, p: string, i: nat) {
    i + |p| <= |s| && s[i..i + |p|] == p
  }

  /** `p in s`, Python's substring test. */
  predicate Contains(s: string, p: string) {
    exists i: nat :: i <= |s| && MatchAt(s, p, i)
  }

  /** A one-character substring test is membership of that character. */
  lemma ContainsChar(s: string, c: char)
    ensures Contains(s, [c]) <==> c in s
  {
    if c in s {
      var i :| 0 <= i < |s| && s[i] == c;
      assert s[i..i + 1] == [c];
      assert MatchAt(s, [c], i);
    }
    if Contains(s, [c]) {
      var i: nat :| i <= |s| && MatchAt(s, [c], i);
      assert s[i] == s[i..i + 1][0];
    }
  }

  /** Leftmost occurrence of `p` in `s` at or after index `k` (`s.find(p, k)`). */
  function FindFrom(s: string, p: string, k: nat): (r: Option<nat>)
    ensures r.Some? ==> k <= r.value && MatchAt(s, p, r.value)
    decreases |s| + 1 - k
  {
    if k + |p| > |s| then None
    else if MatchAt(s, p, k) then Some(k)
    else FindFrom(s, p, k + 1)
  }

  /** What `FindFrom` skips holds no occurrence, and when it finds none there is none. */
  lemma {:induction false} FindFromLeftmost(s: string, p: string, k: nat)
    ensures FindFrom(s, p, k).Some? ==> forall j: nat :: k <= j < FindFrom(s, p, k).value ==> !MatchAt(s, p, j)
    ensures FindFrom(s, p, k).None? ==> forall j: nat :: k <= j ==> !MatchAt(s, p, j)
    decreases |s| + 1 - k
  {
    if k + |p| <= |s| && !MatchAt(s, p, k) {
      FindFromLeftmost(s, p, k + 1);
    }
  }

  /** Leftmost occurrence of `p` in `s` (`s.find(p)`, with `None` for -1). */
  function Find(s: string, p: string): (r: Option<nat>)
    ensures r.None? <==> !Contains(s, p)
    ensures r.Some? ==> MatchAt(s, p, r.value)
    ensures r.Some? ==> forall j: nat :: j < r.value ==> !MatchAt(s, p, j)
  {
    FindFromLeftmost(s, p, 0);
    FindFrom(s, p, 0)
  }

  /** An occurrence at `i` with none before it is what `Find` returns. */
  lemma FindIs(s: string, p: string, i: nat)
    requires MatchAt(s, p, i)
    requires forall j: nat :: j < i ==> !MatchAt(s, p, j)
    ensures Find(s, p) == Some(i)
  {
    assert Contains(s, p);
  }

  /**
   * `s.replace(pat, repl)` for a non-empty `pat`, from index `k` on: find the
   * leftmost occurrence at or after `k`, copy what precedes it, emit `repl`,
   * and resume the search just after the occurrence. Text already produced is
   * never searched again.
   */
  function ReplaceFrom(s: string, pat: string, repl: string, k: nat): (r: string)
    requires pat != [] && k <= |s|
    decreases |s| - k
  {
    match FindFrom(s, pat, k)
    case None => s[k..]
    case Some(i) => s[k..i] + repl + ReplaceFrom(s, pat, repl, i + |pat|)
  }

  /** `s.replace(pat, repl)` for a non-empty `pat`. */
  function Replace(s: string, pat: string, repl: string): (r: string)
    requires pat != []
    ensures !Contains(s, pat) ==> r == s
  {
    assert s[0..] == s;
    ReplaceFrom(s, pat, repl, 0)
  }

  /**
   * Reference definition of the same operation as a single left-to-right
   * character scan over `s[k..]`: at each position either `pat` matches and
   * is skipped, or one character is copied.
   */
  function ReplaceScan(s: string, pat: string, repl: string, k: nat): (r: string)
    requires pat != [] && k <= |s|
    decreases |s| - k
  {
    if k + |pat| > |s| then s[k..]
    else if MatchAt(s, pat, k) then repl + ReplaceScan(s, pat, repl, k + |pat|)
    else [s[k]] + ReplaceScan(s, pat, repl, k + 1)
  }

  /** An occurrence at `k` is replaced, and the search resumes after it. */
  lemma ReplaceFromAtMatch(s: string, pat: string, repl: string, k: nat)
    requires pat != [] && k <= |s| && MatchAt(s, pat, k)
    ensures ReplaceFrom(s, pat, repl, k) == repl + ReplaceFrom(s, pat, repl, k + |pat|)
  {
    assert FindFrom(s, pat, k) == Some(k);
    assert s[k..k] == [];
  }

  /** Without an occurrence at `k`, the character at `k` is copied. */
  lemma ReplaceFromSkip(s: string, pat: string, repl: string, k: nat)
    requires pat != [] && k < |s| && !MatchAt(s, pat, k)
    ensures ReplaceFrom(s, pat, repl, k) == [s[k]] + ReplaceFrom(s, pat, repl, k + 1)
  {
    if k + |pat| > |s| {
      assert FindFrom(s, pat, k) == None && FindFrom(s, pat, k + 1) == None;
      assert s[k..] == [s[k]] + s[k + 1..];
    } else {
      ReplaceFromSkipInside(s, pat, repl, k);
    }
  }

  /** `ReplaceFromSkip` when an occurrence of `pat` could still fit at `k`. */
  lemma ReplaceFromSkipInside(s: string, pat: string, repl: string, k: nat)
    requires pat != [] && k + |pat| <= |s| && !MatchAt(s, pat, k)
    ensures ReplaceFrom(s, pat, repl, k) == [s[k]] + ReplaceFrom(s, pat, repl, k + 1)
  {
    FindFromSkip(s, pat, k);
    match FindFrom(s, pat, k + 1)
    case None =>
      ReplaceFromNone(s, pat, repl, k);
      ReplaceFromNone(s, pat, repl, k + 1);
      ConsSlice(s, k, |s|, []);
    case Some(i) =>
      ReplaceFromFound(s, pat, repl, k, i);
      ReplaceFromFound(s, pat, repl, k + 1, i);
      ConsSlice(s, k, i, repl + ReplaceFrom(s, pat, repl, i + |pat|));
  }

  /** No occurrence at `k` (with room for one): the search goes on from `k + 1`. */
  lemma FindFromSkip(s: string, p: string, k: nat)
    requires k + |p| <= |s| && !MatchAt(s, p, k)
    ensures FindFrom(s, p, k) == FindFrom(s, p, k + 1)
  {
  }

  /** One step of `ReplaceFrom` when the search from `k` finds nothing. */
  lemma ReplaceFromNone(s: string, pat: string, repl: string, k: nat)
    requires pat != [] && k <= |s| && FindFrom(s, pat, k) == None
    ensures ReplaceFrom(s, pat, repl, k) == s[k..]
  {
  }

  /** From `k` on there is no occurrence: the rest of `s` is copied as it is. */
  lemma ReplaceFromNoneAfter(s: string, pat: string, repl: string, k: nat)
    requires pat != [] && k <= |s|
    requires forall j: nat :: k <= j ==> !MatchAt(s, pat, j)
    ensures ReplaceFrom(s, pat, repl, k) == s[k..]
  {
    assert FindFrom(s, pat, k) == None;
    ReplaceFromNone(s, pat, repl, k);
  }

  /** One step of `ReplaceFrom` when the search from `k` finds `i`. */
  lemma ReplaceFromFound(s: string, pat: string, repl: string, k: nat, i: nat)
    requires pat != [] && k <= |s| && FindFrom(s, pat, k) == Some(i)
    ensures ReplaceFrom(s, pat, repl, k) == s[k..i] + (repl + ReplaceFrom(s, pat, repl, i + |pat|))
  {
  }

  /** Search and scan produce the same text from every starting index. */
  lemma {:induction false} ReplaceFromMatchesScan(s: string, pat: string, repl: string, k: nat)
    requires pat != [] && k <= |s|
    ensures ReplaceFrom(s, pat, repl, k) == ReplaceScan(s, pat, repl, k)
    decreases |s| - k
  {
    if k + |pat| > |s| {
      assert FindFrom(s, pat, k) == None;
    } else if MatchAt(s, pat, k) {
      ReplaceFromAtMatch(s, pat, repl, k);
      ReplaceFromMatchesScan(s, pat, repl, k + |pat|);
    } else {
      ReplaceFromSkip(s, pat, repl, k);
      ReplaceFromMatchesScan(s, pat, repl, k + 1);
    }
  }

  /** `Replace` agrees with the character scan on every input. */
  lemma ReplaceMatchesScan(s: string, pat: string, repl: string)
    requires pat != []
    ensures Replace(s, pat, repl) == ReplaceScan(s, pat, repl, 0)
  {
    ReplaceFromMatchesScan(s, pat, repl, 0);
  }

  /** A stretch `s[k..m]` without occurrences is copied as it is. */
  lemma {:induction false} ReplaceFromCopy(s: string, pat: string, repl: string, k: nat, m: nat)
    requires pat != [] && k <= m <= |s|
    requires forall j: nat :: k <= j < m ==> !MatchAt(s, pat, j)
    ensures ReplaceFrom(s, pat, repl, k) == s[k..m] + ReplaceFrom(s, pat, repl, m)
    decreases m - k
  {
    if k < m {
      ReplaceFromSkip(s, pat, repl, k);
      ReplaceFromCopy(s, pat, repl, k + 1, m);
      ConsSlice(s, k, m, ReplaceFrom(s, pat, repl, m));
    } else {
      assert s[k..m] == [];
    }
  }

  /**
   * From `lo`, a stretch without occurrences up to an occurrence at `p`: the
   * stretch is copied, the occurrence replaced, and the search resumes after it.
   */
  lemma ReplaceFromThrough(s: string, pat: string, repl: string, lo: nat, p: nat)
    requires pat != [] && lo <= p && MatchAt(s, pat, p)
    requires forall j: nat :: lo <= j < p ==> !MatchAt(s, pat, j)
    ensures ReplaceFrom(s, pat, repl, lo) == s[lo..p] + (repl + ReplaceFrom(s, pat, repl, p + |pat|))
  {
    ReplaceFromCopy(s, pat, repl, lo, p);
    ReplaceFromAtMatch(s, pat, repl, p);
  }

  /**
   * Exactly one occurrence, at `p`: it is replaced and the text before and
   * after it is copied.
   */
  lemma ReplaceOne(s: string, pat: string, repl: string, p: nat)
    requires pat != [] && MatchAt(s, pat, p)
    requires forall j: nat :: j < p ==> !MatchAt(s, pat, j)
    requires forall j: nat :: p + |pat| <= j ==> !MatchAt(s, pat, j)
    ensures Replace(s, pat, repl) == s[..p] + (repl + s[p + |pat|..])
  {
    ReplaceIsFrom(s, pat, repl);
    ReplaceFromThrough(s, pat, repl, 0, p);
    var q := p + |pat|;
    assert q <= |s| by { assert MatchAt(s, pat, p); }
    ReplaceFromNoneAfter(s, pat, repl, q);
  }

  /**
   * Exactly two occurrences, the first at the front and the second at `p`:
   * both are replaced and the text between and after them is copied.
   */
  lemma ReplaceTwo(s: string, pat: string, repl: string, p: nat)
    requires pat != [] && |pat| <= p && MatchAt(s, pat, 0) && MatchAt(s, pat, p)
    requires forall j: nat :: |pat| <= j < p ==> !MatchAt(s, pat, j)
    requires forall j: nat :: p + |pat| <= j ==> !MatchAt(s, pat, j)
    ensures Replace(s, pat, repl) == repl + (s[|pat|..p] + (repl + s[p + |pat|..]))
  {
    ReplaceIsFrom(s, pat, repl);
    ReplaceFromAtMatch(s, pat, repl, 0);
    ReplaceFromThrough(s, pat, repl, |pat|, p);
    var q := p + |pat|;
    assert q <= |s| by { assert MatchAt(s, pat, p); }
    ReplaceFromNoneAfter(s, pat, repl, q);
  }

  /** `Replace` is the replacement from index 0. */
  lemma ReplaceIsFrom(s: string, pat: string, repl: string)
    requires pat != []
    ensures Replace(s, pat, repl) == ReplaceFrom(s, pat, repl, 0)
  {
    assert s[0..] == s;
  }

  /** Putting `s[k]` back in front of `s[k + 1..m]`, before any continuation. */
  lemma ConsSlice(s: string, k: nat, m: nat, rest: string)
    requires k < m <= |s|
    ensures [s[k]] + (s[k + 1..m] + rest) == s[k..m] + rest
  {
    assert s[k..m] == [s[k]] + s[k + 1..m];
  }

  /** Characters for which Python's `str.isspace` holds. */
  predicate IsWhitespace(c: char) {
    || ('\t' <= c <= '\r')
    || ('\U{1C}' <= c <= '\U{1F}')
    || c == ' '
    || c == '\U{85}'
    || c == '\U{A0}'
    || c == '\U{1680}'
    || ('\U{2000}' <= c <= '\U{200A}')
    || c == '\U{2028}'
    || c == '\U{2029}'
    || c == '\U{202F}'
    || c == '\U{205F}'
    || c == '\U{3000}'
  }

  /** Neither the first nor the last character of `s` is whitespace. */
  predicate NoEdgeWhitespace(s: string) {
    s == [] || (!IsWhitespace(s[0]) && !IsWhitespace(s[|s| - 1]))
  }

  /** Index of the first non-whitespace character at or after `i`, or `|s|`. */
  function StripStart(s: string, i: nat): (k: nat)
    requires i <= |s|
    ensures i <= k <= |s|
    ensures forall j :: i <= j < k ==> IsWhitespace(s[j])
    ensures k < |s| ==> !IsWhitespace(s[k])
    decreases |s| - i
  {
    if i < |s| && IsWhitespace(s[i]) then StripStart(s, i + 1) else i
  }

  /** End (exclusive) of `s[lo..j]` once trailing whitespace is dropped; never below `lo`. */
  function StripEnd(s: string, lo: nat, j: nat): (k: nat)
    requires lo <= j <= |s|
    ensures lo <= k <= j
    ensures forall m :: k <= m < j ==> IsWhitespace(s[m])
    ensures lo < k ==> !IsWhitespace(s[k - 1])
    decreases j
  {
    if lo < j && IsWhitespace(s[j - 1]) then StripEnd(s, lo, j - 1) else j
  }

  /** `s.strip()`: the slice of `s` without leading and trailing whitespace. */
  function Strip(s: string): (r: string)
    ensures |r| <= |s|
    ensures NoEdgeWhitespace(r)
  {
    var lo := StripStart(s, 0);
    s[lo..StripEnd(s, lo, |s|)]
  }

  /**
   * `Strip` keeps a contiguous slice of its input, and everything it drops,
   * on either side, is whitespace.
   */
  lemma StripBounds(s: string) returns (lo: nat, hi: nat)
    ensures lo <= hi <= |s| && Strip(s) == s[lo..hi]
    ensures forall j :: 0 <= j < lo ==> IsWhitespace(s[j])
    ensures forall j :: hi <= j < |s| ==> IsWhitespace(s[j])
  {
    lo := StripStart(s, 0);
    hi := StripEnd(s, lo, |s|);
  }

  /** A string without whitespace at either end is left as it is. */
  lemma StripNoEdge(s: string)
    requires NoEdgeWhitespace(s)
    ensures Strip(s) == s
  {
    if s != [] {
      var lo := StripStart(s, 0);
      assert lo == 0;
      assert StripEnd(s, 0, |s|) == |s|;
      assert s[0..|s|] == s;
    }
  }

  /**
   * Whitespace around a string without whitespace at its ends is exactly what
   * `Strip` removes; whitespace inside it is kept.
   */
  lemma StripAround(lead: string, x: string, trail: string)
    requires forall c :: c in lead ==> IsWhitespace(c)
    requires forall c :: c in trail ==> IsWhitespace(c)
    requires NoEdgeWhitespace(x)
    ensures Strip(lead + x + trail) == x
  {
    var s := lead + x + trail;
    var lo := StripStart(s, 0);
    var hi := StripEnd(s, lo, |s|);
    var e := |lead| + |x|;
    forall j | 0 <= j < |lead| ensures IsWhitespace(s[j]) {
      assert s[j] == lead[j];
    }
    forall j | e <= j < |s| ensures IsWhitespace(s[j]) {
      assert s[j] == trail[j - e];
    }
    if x == [] {
      assert lo == |s|;
    } else {
      assert s[|lead|] == x[0];
      assert lo == |lead|;
      assert s[e - 1] == x[|x| - 1];
      assert hi == e;
      assert s[lo..hi] == x;
    }
  }

  /** Stripping twice is stripping once. */
  lemma StripIdempotent(s: string)
    ensures Strip(Strip(s)) == Strip(s)
  {
    StripNoEdge(Strip(s));
  }

  /**
   * `s.split(sep, 1)` for a non-empty `sep`: one part when `sep` does not
   * occur, otherwise the text before its first occurrence and everything after.
   */
  function SplitOnce(s: string, sep: string): (parts: seq<string>)
    requires sep != []
    ensures 1 <= |parts| <= 2
    ensures |parts| == 2 <==> Contains(s, sep)
    ensures |parts| == 1 ==> parts[0] == s
    ensures |parts| == 2 ==> parts[0] + sep + parts[1] == s
    ensures !Contains(parts[0], sep)
  {
    match Find(s, sep)
    case None => [s]
    case Some(i) =>
      var head := s[..i];
      assert forall j: nat :: MatchAt(head, sep, j) ==> MatchAt(s, sep, j) by {
        forall j: nat | MatchAt(head, sep, j) ensures MatchAt(s, sep, j) {
          assert head[j..j + |sep|] == s[j..j + |sep|];
        }
      }
      assert s == head + sep + s[i + |sep|..] by {
        assert s[i..i + |sep|] == sep;
        assert s == s[..i] + s[i..i + |sep|] + s[i + |sep|..];
      }
      [head, s[i + |sep|..]]
  }

  /** When `split` cuts, it cuts at the leftmost occurrence of the separator. */
  lemma SplitOnceLeftmost(s: string, sep: string)
    requires sep != []
    ensures var parts := SplitOnce(s, sep);
            |parts| == 2 ==> Find(s, sep) == Some(|parts[0]|)
  {
  }

  /** Text appended after the leftmost occurrence does not move it. */
  lemma FindExtend(s: string, p: string, u: string, i: nat)
    requires Find(s, p) == Some(i)
    ensures Find(s + u, p) == Some(i)
  {
    var su := s + u;
    assert MatchAt(su, p, i) by {
      assert su[i..i + |p|] == s[i..i + |p|];
    }
    forall j: nat | j < i ensures !MatchAt(su, p, j) {
      assert !MatchAt(s, p, j);
      assert su[j..j + |p|] == s[j..j + |p|];
    }
  }

  /**
   * Appending text after a string that already contains `sep` does not move
   * the cut: the appended text lands entirely in the second part.
   */
  lemma SplitOnceExtend(s: string, sep: string, u: string)
    requires sep != [] && Contains(s, sep)
    ensures SplitOnce(s + u, sep) == [SplitOnce(s, sep)[0], SplitOnce(s, sep)[1] + u]
  {
    var i := Find(s, sep).value;
    FindExtend(s, sep, u, i);
    var su := s + u;
    assert su[..i] == s[..i];
    assert su[i + |sep|..] == s[i + |sep|..] + u;
  }
}
