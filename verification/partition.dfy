/** The region partitioner: `PROTECT_PATTERN.split(text)`.

    The protecting pattern is one capturing group of four alternatives,
    tried in this order at every position of the text:
      1. a fenced code block, three backticks up to the NEXT three backticks;
      2. inline code, a backtick, at least one character that is neither a
         backtick nor a newline, and a backtick;
      3. display math, `$$` up to the NEXT `$$`, newlines allowed;
      4. inline math, a dollar, at least one character that is neither a
         dollar nor a newline, and a dollar.
    The split yields the plain text before the first match, the match, the
    plain text up to the next match, and so on: even indices are plain text
    (possibly empty), odd indices are the protected matches. */
module Partition {
  import opened Text
  import opened Scan

  /** The alternatives of the protecting pattern, in the order they are tried. */
  datatype Kind = FenceBlock | InlineCode | DisplayMath | InlineMath

  /** A protected match at the start of a text: which alternative, how long. */
  datatype Match = Match(kind: Kind, len: nat)

  const Fence: string := "```"
  const DisplayDelim: string := "$$"

  function Rank(k: Kind): nat
  {
    match k
    case FenceBlock => 0
    case InlineCode => 1
    case DisplayMath => 2
    case InlineMath => 3
  }

  /** The first occurrence of `pat` in `s` at or after `from`. */
  function FindFrom(s: string, pat: string, from: nat): (r: Option<nat>)
    requires |pat| > 0
    ensures r.Some? ==> from <= r.value && r.value + |pat| <= |s|
    decreases |s| - from
  {
    if from + |pat| > |s| then None
    else if s[from..from + |pat|] == pat then Some(from)
    else FindFrom(s, pat, from + 1)
  }

  /** `FindFrom` reports an occurrence, and no occurrence before it; it
      reports nothing only when there is no occurrence at all. */
  lemma {:induction false} FindFromIsFirst(s: string, pat: string, from: nat)
    requires |pat| > 0
    ensures FindFrom(s, pat, from).Some? ==> OccursAt(s, pat, FindFrom(s, pat, from).value)
    ensures forall k ::
      (from <= k && (FindFrom(s, pat, from).None? || k < FindFrom(s, pat, from).value)) ==> !OccursAt(s, pat, k)
    decreases |s| - from
  {
    if from + |pat| <= |s| && s[from..from + |pat|] != pat {
      FindFromIsFirst(s, pat, from + 1);
    }
  }

  /** `t` opens and closes with the delimiter `d`, as `d[\s\S]*?d` needs. */
  ghost predicate IsBlock(t: string, d: string)
  {
    |t| >= 2 * |d| && OccursAt(t, d, 0) && OccursAt(t, d, |t| - |d|)
  }

  /** The lazy `[\s\S]*?` closes at the first delimiter it can: `n` is the
      length of the SHORTEST block at the start of `s`. */
  ghost predicate ShortestBlock(s: string, d: string, n: int)
  {
    0 <= n <= |s| && IsBlock(s[..n], d) && forall m :: 0 <= m < n ==> !IsBlock(s[..m], d)
  }

  lemma OccursInPrefix(s: string, pat: string, n: nat, k: int)
    requires n <= |s|
    ensures OccursAt(s[..n], pat, k) <==> OccursAt(s, pat, k) && k + |pat| <= n
  {
    if 0 <= k && k + |pat| <= n {
      assert s[..n][k..k + |pat|] == s[k..k + |pat|];
    }
  }

  /** The lazy block alternative `d[\s\S]*?d` at the start of `s`: the
      length of the block that closes at the first `d` after the opening one. */
  function LazyBlockLen(s: string, d: string): (r: Option<nat>)
    requires |d| > 0
    ensures r.Some? ==> 2 * |d| <= r.value <= |s|
  {
    if OccursAt(s, d, 0) then
      match FindFrom(s, d, |d|)
      case Some(k) => Some(k + |d|)
      case None => None
    else None
  }

  /** `LazyBlockLen` finds the shortest block, and finds one whenever a
      block exists. */
  lemma LazyBlockLenIsShortest(s: string, d: string)
    requires |d| > 0
    ensures LazyBlockLen(s, d).Some? ==> ShortestBlock(s, d, LazyBlockLen(s, d).value)
    ensures LazyBlockLen(s, d).None? ==> forall n :: 0 <= n <= |s| ==> !IsBlock(s[..n], d)
  {
    FindFromIsFirst(s, d, |d|);
    if !OccursAt(s, d, 0) {
      NoOpeningNoBlock(s, d);
    } else if FindFrom(s, d, |d|).Some? {
      ClosedBlockIsShortest(s, d, FindFrom(s, d, |d|).value);
    } else {
      UnclosedNoBlock(s, d);
    }
  }

  lemma NoOpeningNoBlock(s: string, d: string)
    requires !OccursAt(s, d, 0)
    ensures forall n :: 0 <= n <= |s| ==> !IsBlock(s[..n], d)
  {
    forall n | 0 <= n <= |s|
      ensures !IsBlock(s[..n], d)
    {
      OccursInPrefix(s, d, n, 0);
    }
  }

  lemma UnclosedNoBlock(s: string, d: string)
    requires |d| > 0
    requires forall k :: |d| <= k ==> !OccursAt(s, d, k)
    ensures forall n :: 0 <= n <= |s| ==> !IsBlock(s[..n], d)
  {
    forall n | 0 <= n <= |s|
      ensures !IsBlock(s[..n], d)
    {
      OccursInPrefix(s, d, n, n - |d|);
    }
  }

  lemma ClosedBlockIsShortest(s: string, d: string, k: nat)
    requires |d| > 0 && |d| <= k && OccursAt(s, d, 0) && OccursAt(s, d, k)
    requires forall j :: |d| <= j < k ==> !OccursAt(s, d, j)
    ensures ShortestBlock(s, d, k + |d|)
  {
    OccursInPrefix(s, d, k + |d|, 0);
    OccursInPrefix(s, d, k + |d|, k);
    forall m | 0 <= m < k + |d|
      ensures !IsBlock(s[..m], d)
    {
      OccursInPrefix(s, d, m, m - |d|);
    }
  }

  /** `t` is `d`, one or more characters other than `d` and newline, `d`:
      the shape of `` `[^`\n]+` `` and of `\$[^\$\n]+\$`. */
  predicate IsDelimited(t: string, d: char)
  {
    && |t| >= 3 && t[0] == d && t[|t| - 1] == d
    && forall i :: 1 <= i < |t| - 1 ==> t[i] != d && t[i] != '\n'
  }

  /** The end of the run of characters other than `d` and newline that
      starts at `from`. */
  function RunWithout(s: string, d: char, from: nat): (r: nat)
    requires from <= |s|
    ensures from <= r <= |s|
    decreases |s| - from
  {
    if from == |s| || s[from] == d || s[from] == '\n' then from
    else RunWithout(s, d, from + 1)
  }

  /** The run is maximal: it holds no `d` and no newline, and it stops at
      one of them or at the end. */
  lemma {:induction false} RunWithoutIsMaximal(s: string, d: char, from: nat)
    requires from <= |s|
    ensures forall i :: from <= i < RunWithout(s, d, from) ==> s[i] != d && s[i] != '\n'
    ensures RunWithout(s, d, from) < |s| ==>
      s[RunWithout(s, d, from)] == d || s[RunWithout(s, d, from)] == '\n'
    decreases |s| - from
  {
    if !(from == |s| || s[from] == d || s[from] == '\n') {
      RunWithoutIsMaximal(s, d, from + 1);
    }
  }

  /** The delimited alternative at the start of `s`: `d`, the greedy run
      of characters other than `d` and newline, which must be non-empty,
      and `d`. */
  function DelimitedLen(s: string, d: char): (r: Option<nat>)
    ensures r.Some? ==> 3 <= r.value <= |s|
  {
    if |s| > 0 && s[0] == d then
      var e := RunWithout(s, d, 1);
      if 1 < e < |s| && s[e] == d then Some(e + 1) else None
    else
      None
  }

  /** Backtracking cannot find another match: `DelimitedLen` reports the one
      prefix of `s` that has the delimited shape, and nothing when none has. */
  lemma DelimitedLenIsUnique(s: string, d: char)
    ensures forall n :: 0 <= n <= |s| ==>
      (DelimitedLen(s, d) == Some(n) <==> IsDelimited(s[..n], d))
  {
    if |s| > 0 && s[0] == d {
      var e := RunWithout(s, d, 1);
      RunWithoutIsMaximal(s, d, 1);
      if 1 < e < |s| && s[e] == d {
        assert IsDelimited(s[..e + 1], d);
      }
    }
  }

  /** Alternative `k` of the protecting pattern matches the first `n`
      characters of `s`. */
  ghost predicate Fires(s: string, k: Kind, n: int)
  {
    0 <= n <= |s| &&
    match k
    case FenceBlock => ShortestBlock(s, Fence, n)
    case InlineCode => IsDelimited(s[..n], '`')
    case DisplayMath => ShortestBlock(s, DisplayDelim, n)
    case InlineMath => IsDelimited(s[..n], '$')
  }

  /** The match of the protecting pattern at the start of `s`, if any: the
      first alternative, in pattern order, that matches there. */
  function ProtectedPrefix(s: string): (r: Option<Match>)
    ensures r.Some? ==> 3 <= r.value.len <= |s|
  {
    var fence := LazyBlockLen(s, Fence);
    if fence.Some? then
      Some(Match(FenceBlock, fence.value))
    else
      var code := DelimitedLen(s, '`');
      if code.Some? then
        Some(Match(InlineCode, code.value))
      else
        var display := LazyBlockLen(s, DisplayDelim);
        if display.Some? then
          Some(Match(DisplayMath, display.value))
        else
          var inline := DelimitedLen(s, '$');
          if inline.Some? then
            Some(Match(InlineMath, inline.value))
          else
            None
  }

  /** `ProtectedPrefix` follows the pattern's rule: the match it reports
      is made by its alternative, and no alternative listed earlier matches
      at all; it reports nothing exactly when no alternative matches. */
  lemma ProtectedPrefixIsFirstAlternative(s: string)
    ensures ProtectedPrefix(s).Some? ==>
      Fires(s, ProtectedPrefix(s).value.kind, ProtectedPrefix(s).value.len)
    ensures forall k, n :: Fires(s, k, n) ==>
      ProtectedPrefix(s).Some? && Rank(ProtectedPrefix(s).value.kind) <= Rank(k)
  {
    LazyBlockLenIsShortest(s, Fence);
    DelimitedLenIsUnique(s, '`');
    LazyBlockLenIsShortest(s, DisplayDelim);
    DelimitedLenIsUnique(s, '$');
  }

  /** The normalizer's test for inline math, "starts with `$` but not with
      `$$`", singles out exactly the matches made by the inline-math
      alternative. */
  lemma InlineTestMatchesKind(s: string)
    requires ProtectedPrefix(s).Some?
    ensures ProtectedPrefix(s).value.kind == InlineMath <==> s[0] == '$' && s[1] != '$'
  {
    var m := ProtectedPrefix(s).value;
    ProtectedPrefixIsFirstAlternative(s);
    assert s[..m.len][0] == s[0] && s[..m.len][1] == s[1];
    if m.kind == FenceBlock {
      assert s[..m.len][..3] == Fence;
    } else if m.kind == DisplayMath {
      assert s[..m.len][..2] == DisplayDelim;
    }
  }

  /** The length of the protecting pattern's match at the start of `s`:
      the matcher that the split scans with. */
  function MatchLen(s: string): (r: Option<nat>)
    ensures r.Some? ==> 3 <= r.value <= |s|
  {
    match ProtectedPrefix(s)
    case Some(m) => Some(m.len)
    case None => None
  }

  /** The protecting pattern never matches the empty string. */
  lemma MatchLenAdvances()
    ensures Advances(MatchLen)
  {
  }

  /** `PROTECT_PATTERN.split(s)`: plain text at even indices, protected
      spans at odd ones. */
  function Split(s: string): (parts: seq<string>)
    ensures |parts| % 2 == 1
  {
    MatchLenAdvances();
    SplitBy(MatchLen, s)
  }

  /** The split is lossless, and it cuts exactly at the leftmost matches of
      the protecting pattern, each the first alternative that fires there. */
  lemma SplitPartitions(s: string)
    ensures Concat(Split(s)) == s
    ensures Advances(MatchLen) && IsPartition(MatchLen, s, Split(s))
  {
    MatchLenAdvances();
    Scan.SplitIsPartition(MatchLen, s);
  }

  /** Conversely, any list of parts that joins to `s` and cuts at the
      leftmost matches is `Split(s)`. */
  lemma SplitIsUnique(s: string, parts: seq<string>)
    requires IsPartition(MatchLen, s, parts)
    ensures parts == Split(s)
  {
    MatchLenAdvances();
    PartitionUnique(MatchLen, s, parts);
  }

  /** An inline-math match, as the normalizer recognises it by its first two
      characters, is a dollar, at least one character that is neither a
      dollar nor a newline, and a dollar. */
  lemma InlineMatchShape(t: string)
    requires MatchLen(t).Some? && t[0] == '$' && t[1] != '$'
    ensures IsDelimited(t[..MatchLen(t).value], '$')
  {
    InlineTestMatchesKind(t);
    ProtectedPrefixIsFirstAlternative(t);
  }

  /** Where no backtick and no dollar occurs, nothing is protected. */
  lemma {:induction false} SplitWithoutDelimiters(s: string)
    requires forall i :: 0 <= i < |s| ==> s[i] != '`' && s[i] != '$'
    ensures Split(s) == [s]
    decreases |s|
  {
    MatchLenAdvances();
    if |s| > 0 {
      assert MatchLen(s).None?;
      SplitWithoutDelimiters(s[1..]);
      assert s == [s[0]] + s[1..];
    }
  }

  /** Display math is tried before inline math, so `$$a$$` is one
      display-math span, not two inline pieces around `a`. */
  lemma DisplayMathIsOneSpan()
    ensures Split("$$a$$") == ["", "$$a$$", ""]
    ensures ProtectedPrefix("$$a$$") == Some(Match(DisplayMath, 5))
  {
    var s := "$$a$$";
    assert !OccursAt(s, Fence, 0);
    assert OccursAt(s, DisplayDelim, 0);
    assert s[2..4][0] == 'a';
    assert !OccursAt(s, DisplayDelim, 2);
    assert OccursAt(s, DisplayDelim, 3);
    assert FindFrom(s, DisplayDelim, 3) == Some(3);
    assert FindFrom(s, DisplayDelim, 2) == Some(3);
    assert ProtectedPrefix(s) == Some(Match(DisplayMath, 5));
    MatchLenAdvances();
    assert s[..5] == s && s[5..] == "";
    assert SplitBy(MatchLen, "") == [""];
  }
}
