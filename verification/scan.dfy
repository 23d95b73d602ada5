/** Leftmost scanning, the way Python's `re.split` and `re.sub` walk a text
    with a pattern that never matches the empty string and whose match at a
    position depends only on the text from that position on (no lookbehind,
    `\b` or `^`).

    A pattern is represented by its matcher: given a text, the length of
    the match the pattern makes at the very start of that text, if any.
    The scanner tries the matcher at position 0; on a match it cuts the
    match off and continues after it, otherwise it keeps one character as
    plain text and tries again at the next position. */
module Scan {
  import opened Text

  type Matcher = string -> Option<nat>

  /** Every match is non-empty and lies inside the text it was taken from. */
  ghost predicate Advances(ml: Matcher)
  {
    forall t :: ml(t).Some? ==> 0 < ml(t).value <= |t|
  }

  /** `pattern.split(s)` for a pattern with exactly one capturing group that
      spans the whole match: plain text at even indices, matches at odd ones. */
  function SplitBy(ml: Matcher, s: string): (parts: seq<string>)
    requires Advances(ml)
    ensures |parts| % 2 == 1
    decreases |s|
  {
    if |s| == 0 then
      [""]
    else
      match ml(s)
      case Some(n) =>
        ["", s[..n]] + SplitBy(ml, s[n..])
      case None =>
        var rest := SplitBy(ml, s[1..]);
        [[s[0]] + rest[0]] + rest[1..]
  }

  /** `pattern.sub(repl, s)`: every match `t` is replaced by `repl(t)`, the
      text between matches is copied. */
  function SubBy(ml: Matcher, repl: string -> string, s: string): string
    requires Advances(ml)
    decreases |s|
  {
    if |s| == 0 then
      ""
    else
      match ml(s)
      case Some(n) => repl(s[..n]) + SubBy(ml, repl, s[n..])
      case None => [s[0]] + SubBy(ml, repl, s[1..])
  }

  /** Replaces the parts at odd indices (the matches) by `repl` of them. */
  function MapOdd(repl: string -> string, parts: seq<string>): (r: seq<string>)
    ensures |r| == |parts|
    decreases |parts|
  {
    if |parts| < 2 then parts else [parts[0], repl(parts[1])] + MapOdd(repl, parts[2..])
  }

  /** `MapOdd` rewrites exactly the parts at odd indices. */
  lemma {:induction false} MapOddAt(repl: string -> string, parts: seq<string>)
    ensures forall i :: 0 <= i < |parts| ==>
      MapOdd(repl, parts)[i] == if i % 2 == 1 then repl(parts[i]) else parts[i]
    decreases |parts|
  {
    if |parts| >= 2 {
      MapOddAt(repl, parts[2..]);
      forall i | 2 <= i < |parts|
        ensures MapOdd(repl, parts)[i] == if i % 2 == 1 then repl(parts[i]) else parts[i]
      {
        assert MapOdd(repl, parts)[i] == MapOdd(repl, parts[2..])[i - 2];
        assert parts[i] == parts[2..][i - 2];
        assert (i - 2) % 2 == i % 2;
      }
    }
  }

  /** Every part at an odd index satisfies `P`. */
  predicate OddPartsSatisfy(P: string -> bool, parts: seq<string>)
    decreases |parts|
  {
    |parts| < 2 || (P(parts[1]) && OddPartsSatisfy(P, parts[2..]))
  }

  lemma {:induction false} OddPartsSatisfyAt(P: string -> bool, parts: seq<string>)
    ensures OddPartsSatisfy(P, parts) <==> forall i :: 0 <= i < |parts| && i % 2 == 1 ==> P(parts[i])
    decreases |parts|
  {
    if |parts| >= 2 {
      var rest := parts[2..];
      OddPartsSatisfyAt(P, rest);
      if OddPartsSatisfy(P, parts) {
        forall i | 0 <= i < |parts| && i % 2 == 1
          ensures P(parts[i])
        {
          if i > 1 {
            assert parts[i] == rest[i - 2];
            assert (i - 2) % 2 == 1;
          }
        }
      }
      if forall i :: 0 <= i < |parts| && i % 2 == 1 ==> P(parts[i]) {
        forall i | 0 <= i < |rest| && i % 2 == 1
          ensures P(rest[i])
        {
          assert rest[i] == parts[i + 2];
          assert (i + 2) % 2 == 1;
        }
      }
    }
  }

  lemma JoinMatchStep(s: string, n: nat, rest: seq<string>)
    requires n <= |s| && Concat(rest) == s[n..]
    ensures Concat(["", s[..n]] + rest) == s
  {
    var parts := ["", s[..n]] + rest;
    assert parts[1..] == [s[..n]] + rest;
    assert parts[1..][1..] == rest;
  }

  lemma JoinPlainStep(s: string, rest: seq<string>)
    requires |s| > 0 && |rest| > 0 && Concat(rest) == s[1..]
    ensures Concat([[s[0]] + rest[0]] + rest[1..]) == s
  {
    var parts := [[s[0]] + rest[0]] + rest[1..];
    assert parts[1..] == rest[1..];
    assert s == [s[0]] + s[1..];
  }

  /** The split is lossless: joining the parts gives the text back. */
  lemma {:induction false} SplitJoin(ml: Matcher, s: string)
    requires Advances(ml)
    ensures Concat(SplitBy(ml, s)) == s
    decreases |s|
  {
    if |s| > 0 {
      match ml(s)
      case Some(n) =>
        SplitJoin(ml, s[n..]);
        JoinMatchStep(s, n, SplitBy(ml, s[n..]));
      case None =>
        SplitJoin(ml, s[1..]);
        JoinPlainStep(s, SplitBy(ml, s[1..]));
    }
  }

  /** A match of the pattern starts at position `q` of `s`. */
  predicate StartsAt(ml: Matcher, s: string, q: int)
    requires 0 <= q <= |s|
  {
    ml(s[q..]).Some?
  }

  /** No match of the pattern starts before position `a`. */
  ghost predicate NoMatchBefore(ml: Matcher, s: string, a: int)
  {
    0 <= a <= |s| && forall q :: 0 <= q < a ==> !StartsAt(ml, s, q)
  }

  /** The part lengths follow the leftmost rule: a plain part in which no
      match starts, then exactly the match that starts right after it, and
      so on; the last part is plain text in which no match starts. */
  ghost predicate CutsAtMatches(ml: Matcher, s: string, parts: seq<string>)
    decreases |parts|
  {
    if |parts| < 2 then
      |parts| == 1 && NoMatchBefore(ml, s, |s|)
    else
      var a, m := |parts[0]|, |parts[1]|;
      && a + m <= |s|
      && NoMatchBefore(ml, s, a)
      && ml(s[a..]) == Some(m)
      && CutsAtMatches(ml, s[a + m..], parts[2..])
  }

  /** `parts` is the split of `s`: the parts join to `s`, and the cuts are
      where the leftmost rule puts them. */
  ghost predicate IsPartition(ml: Matcher, s: string, parts: seq<string>)
  {
    Concat(parts) == s && CutsAtMatches(ml, s, parts)
  }

  lemma NoMatchAt(ml: Matcher, s: string, a: int, q: int)
    requires NoMatchBefore(ml, s, a) && 0 <= q < a
    ensures ml(s[q..]).None?
  {
    assert !StartsAt(ml, s, q);
  }

  lemma NoMatchBeforeCons(ml: Matcher, s: string, a: nat)
    requires 0 < a <= |s| && ml(s).None?
    requires NoMatchBefore(ml, s[1..], a - 1)
    ensures NoMatchBefore(ml, s, a)
  {
    forall q | 0 < q < a
      ensures !StartsAt(ml, s, q)
    {
      assert s[q..] == s[1..][q - 1..];
      assert !StartsAt(ml, s[1..], q - 1);
    }
    assert s[0..] == s;
  }

  lemma NoMatchBeforeUncons(ml: Matcher, s: string, a: nat)
    requires 0 < a <= |s| && NoMatchBefore(ml, s, a)
    ensures NoMatchBefore(ml, s[1..], a - 1)
  {
    forall q | 0 <= q < a - 1
      ensures !StartsAt(ml, s[1..], q)
    {
      assert s[1..][q..] == s[q + 1..];
      assert !StartsAt(ml, s, q + 1);
    }
  }

  /** No match at the start: the first character joins the first plain part
      of the rest. */
  lemma CutsConsPlain(ml: Matcher, s: string, rest: seq<string>)
    requires |s| > 0 && ml(s).None?
    requires CutsAtMatches(ml, s[1..], rest)
    ensures CutsAtMatches(ml, s, [[s[0]] + rest[0]] + rest[1..])
  {
    var parts := [[s[0]] + rest[0]] + rest[1..];
    if |rest| < 2 {
      NoMatchBeforeCons(ml, s, |s|);
    } else {
      var a, m := |parts[0]|, |parts[1]|;
      assert a - 1 == |rest[0]| && m == |rest[1]|;
      assert s[a..] == s[1..][a - 1..];
      assert s[a + m..] == s[1..][a - 1 + m..];
      assert parts[2..] == rest[2..];
      NoMatchBeforeCons(ml, s, a);
    }
  }

  lemma {:induction false} SplitCuts(ml: Matcher, s: string)
    requires Advances(ml)
    ensures CutsAtMatches(ml, s, SplitBy(ml, s))
    decreases |s|
  {
    if |s| > 0 {
      match ml(s)
      case Some(n) =>
        SplitCuts(ml, s[n..]);
        assert s[0..] == s;
        var parts := SplitBy(ml, s);
        assert |parts[0]| == 0 && |parts[1]| == n;
        assert parts[2..] == SplitBy(ml, s[n..]);
      case None =>
        SplitCuts(ml, s[1..]);
        CutsConsPlain(ml, s, SplitBy(ml, s[1..]));
    } else {
      assert SplitBy(ml, s) == [""];
    }
  }

  /** `SplitBy` cuts `s` at the leftmost matches and loses nothing. */
  lemma SplitIsPartition(ml: Matcher, s: string)
    requires Advances(ml)
    ensures IsPartition(ml, s, SplitBy(ml, s))
  {
    SplitJoin(ml, s);
    SplitCuts(ml, s);
  }

  /** Dropping the first character of a partition whose text does not start
      with a match. */
  lemma CutsUnconsPlain(ml: Matcher, s: string, parts: seq<string>)
    requires |s| > 0 && ml(s).None?
    requires CutsAtMatches(ml, s, parts) && |parts| >= 2
    ensures |parts[0]| > 0
    ensures CutsAtMatches(ml, s[1..], [parts[0][1..]] + parts[1..])
  {
    var a, m := |parts[0]|, |parts[1]|;
    assert NoMatchBefore(ml, s, a) && ml(s[a..]) == Some(m);
    assert a > 0;
    var parts' := [parts[0][1..]] + parts[1..];
    NoMatchBeforeUncons(ml, s, a);
    assert |parts'[0]| == a - 1 && |parts'[1]| == m;
    assert s[1..][a - 1..] == s[a..];
    assert s[1..][a - 1 + m..] == s[a + m..];
    assert parts'[2..] == parts[2..];
  }

  lemma PartitionUnconsPlain(ml: Matcher, s: string, parts: seq<string>)
    requires |s| > 0 && ml(s).None?
    requires IsPartition(ml, s, parts)
    ensures |parts[0]| > 0
    ensures IsPartition(ml, s[1..], [parts[0][1..]] + parts[1..])
    ensures parts == [[s[0]] + parts[0][1..]] + parts[1..]
  {
    if |parts| < 2 {
      NoMatchBeforeUncons(ml, s, |s|);
      assert Concat(parts) == parts[0];
    } else {
      CutsUnconsPlain(ml, s, parts);
    }
    var parts' := [parts[0][1..]] + parts[1..];
    assert Concat(parts) == parts[0] + Concat(parts[1..]);
    assert parts[0] == [s[0]] + parts[0][1..];
    assert Concat(parts') == parts[0][1..] + Concat(parts[1..]);
    assert parts[0] + Concat(parts[1..]) == [s[0]] + (parts[0][1..] + Concat(parts[1..]));
  }

  lemma ConcatCons2(parts: seq<string>)
    requires |parts| >= 2
    ensures Concat(parts) == parts[0] + parts[1] + Concat(parts[2..])
  {
    assert parts[1..][1..] == parts[2..];
  }

  /** A partition of a text that starts with a match opens with an empty
      plain part and that match. */
  lemma PartitionUnconsMatch(ml: Matcher, s: string, parts: seq<string>, n: nat)
    requires |s| > 0 && IsPartition(ml, s, parts) && ml(s) == Some(n)
    ensures |parts| >= 2 && parts[0] == "" && parts[1] == s[..n]
    ensures n <= |s| && IsPartition(ml, s[n..], parts[2..])
  {
    assert s[0..] == s;
    if |parts| < 2 {
      NoMatchAt(ml, s, |s|, 0);
      assert false;
    }
    if |parts[0]| > 0 {
      NoMatchAt(ml, s, |parts[0]|, 0);
      assert false;
    }
    ConcatCons2(parts);
    assert s == parts[1] + Concat(parts[2..]);
  }

  /** Any partition of `s` in the sense above IS `SplitBy(ml, s)`: the split
      is determined by the leftmost rule alone. */
  lemma {:induction false} PartitionUnique(ml: Matcher, s: string, parts: seq<string>)
    requires Advances(ml)
    requires IsPartition(ml, s, parts)
    ensures parts == SplitBy(ml, s)
    decreases |s|
  {
    if |s| == 0 {
      assert |parts| == 1;
      assert parts[0] == Concat(parts);
    } else {
      match ml(s)
      case Some(n) =>
        PartitionUnconsMatch(ml, s, parts, n);
        PartitionUnique(ml, s[n..], parts[2..]);
        assert parts == [parts[0], parts[1]] + parts[2..];
      case None =>
        PartitionUnconsPlain(ml, s, parts);
        PartitionUnique(ml, s[1..], [parts[0][1..]] + parts[1..]);
    }
  }

  lemma MapOddMatchStep(repl: string -> string, x: string, rest: seq<string>)
    ensures Concat(MapOdd(repl, ["", x] + rest)) == repl(x) + Concat(MapOdd(repl, rest))
  {
    var parts := ["", x] + rest;
    assert parts[2..] == rest;
    ConcatCons2(MapOdd(repl, parts));
  }

  lemma MapOddPlainStep(repl: string -> string, c: char, rest: seq<string>)
    requires |rest| > 0
    ensures Concat(MapOdd(repl, [[c] + rest[0]] + rest[1..])) == [c] + Concat(MapOdd(repl, rest))
  {
    var x, more := rest[0], rest[1..];
    assert rest == [x] + more;
    MapOddPlainStepSplit(repl, c, x, more);
  }

  lemma MapOddPlainStepSplit(repl: string -> string, c: char, x: string, more: seq<string>)
    ensures Concat(MapOdd(repl, [[c] + x] + more)) == [c] + Concat(MapOdd(repl, [x] + more))
  {
    if |more| == 0 {
      assert [[c] + x] + more == [[c] + x];
      assert [x] + more == [x];
      assert Concat([[c] + x]) == [c] + x;
      assert Concat([x]) == x;
    } else {
      var tail := Concat(MapOdd(repl, more[1..]));
      assert ([[c] + x] + more)[2..] == more[1..];
      assert ([x] + more)[2..] == more[1..];
      ConcatCons2(MapOdd(repl, [[c] + x] + more));
      ConcatCons2(MapOdd(repl, [x] + more));
      assert ([c] + x) + repl(more[0]) + tail == [c] + (x + repl(more[0]) + tail);
    }
  }

  /** `pattern.sub(repl, s)` is the split with every match replaced, joined
      back together. */
  lemma {:induction false} SubIsMappedSplit(ml: Matcher, repl: string -> string, s: string)
    requires Advances(ml)
    ensures SubBy(ml, repl, s) == Concat(MapOdd(repl, SplitBy(ml, s)))
    decreases |s|
  {
    if |s| > 0 {
      match ml(s)
      case Some(n) =>
        SubIsMappedSplit(ml, repl, s[n..]);
        MapOddMatchStep(repl, s[..n], SplitBy(ml, s[n..]));
      case None =>
        SubIsMappedSplit(ml, repl, s[1..]);
        MapOddPlainStep(repl, s[0], SplitBy(ml, s[1..]));
    }
  }

  /** A text in which no match starts anywhere is copied unchanged. */
  lemma {:induction false} SubWithoutMatches(ml: Matcher, repl: string -> string, s: string)
    requires Advances(ml) && NoMatchBefore(ml, s, |s|)
    ensures SubBy(ml, repl, s) == s
    decreases |s|
  {
    if |s| > 0 {
      assert s[0..] == s;
      assert !StartsAt(ml, s, 0);
      NoMatchBeforeUncons(ml, s, |s|);
      SubWithoutMatches(ml, repl, s[1..]);
    }
  }

  /** Every match that starts inside `a` is the same whether or not `b`
      follows `a`: appending `b` neither creates, lengthens nor removes one. */
  ghost predicate MatchesStayIn(ml: Matcher, a: string, b: string)
  {
    forall q :: 0 <= q < |a| ==> ml((a + b)[q..]) == ml(a[q..])
  }

  /** Scanning distributes over a cut that no match straddles. */
  lemma {:induction false} SubAppend(ml: Matcher, repl: string -> string, a: string, b: string)
    requires Advances(ml) && MatchesStayIn(ml, a, b)
    ensures SubBy(ml, repl, a + b) == SubBy(ml, repl, a) + SubBy(ml, repl, b)
    decreases |a|
  {
    if |a| == 0 {
      assert a + b == b;
    } else {
      var k := SubAppendHead(ml, a, b);
      MatchesStayInShift(ml, a, b, k);
      SubAppend(ml, repl, a[k..], b);
    }
  }

  /** One step of the scan over `a + b` is the step over `a`, followed by `b`;
      `k` is how far the step moves. */
  lemma SubAppendHead(ml: Matcher, a: string, b: string) returns (k: nat)
    requires Advances(ml) && MatchesStayIn(ml, a, b) && |a| > 0
    ensures 0 < k <= |a| && (a + b)[k..] == a[k..] + b
    ensures ml(a + b) == ml(a)
    ensures ml(a).Some? ==> k == ml(a).value && (a + b)[..k] == a[..k]
    ensures ml(a).None? ==> k == 1 && (a + b)[0] == a[0]
  {
    assert (a + b)[0..] == a + b && a[0..] == a;
    k := if ml(a).Some? then ml(a).value else 1;
  }

  lemma MatchesStayInShift(ml: Matcher, a: string, b: string, k: nat)
    requires k <= |a| && MatchesStayIn(ml, a, b)
    ensures MatchesStayIn(ml, a[k..], b)
  {
    forall q | 0 <= q < |a[k..]|
      ensures ml((a[k..] + b)[q..]) == ml(a[k..][q..])
    {
      assert (a[k..] + b)[q..] == (a + b)[q + k..];
      assert a[k..][q..] == a[q + k..];
    }
  }

  /** When every match the matcher can report satisfies `P`, so does every
      odd part of the split. */
  lemma {:induction false} SplitMatchesSatisfy(ml: Matcher, P: string -> bool, s: string)
    requires Advances(ml)
    requires forall t :: ml(t).Some? ==> P(t[..ml(t).value])
    ensures OddPartsSatisfy(P, SplitBy(ml, s))
    decreases |s|
  {
    if |s| > 0 {
      match ml(s)
      case Some(n) =>
        SplitMatchesSatisfy(ml, P, s[n..]);
        var parts := SplitBy(ml, s);
        assert parts[1] == s[..n];
        assert parts[2..] == SplitBy(ml, s[n..]);
      case None =>
        SplitMatchesSatisfy(ml, P, s[1..]);
        var rest := SplitBy(ml, s[1..]);
        var parts := SplitBy(ml, s);
        if |rest| >= 2 {
          assert parts[1] == rest[1] && parts[2..] == rest[2..];
        }
    }
  }

  /** No character of `s` satisfies `Q`. */
  predicate NoneSatisfy(Q: char -> bool, s: string)
  {
    forall i :: 0 <= i < |s| ==> !Q(s[i])
  }

  /** Every part at an even index (plain text) avoids `Q`. */
  predicate EvenPartsAvoid(Q: char -> bool, parts: seq<string>)
    decreases |parts|
  {
    |parts| == 0 || (NoneSatisfy(Q, parts[0]) && (|parts| < 2 || EvenPartsAvoid(Q, parts[2..])))
  }

  /** When every character satisfying `Q` starts a match, no such character
      is left in the plain parts of the split. */
  lemma {:induction false} SplitPlainPartsAvoid(ml: Matcher, Q: char -> bool, s: string)
    requires Advances(ml)
    requires forall t :: |t| > 0 && Q(t[0]) ==> ml(t).Some?
    ensures EvenPartsAvoid(Q, SplitBy(ml, s))
    decreases |s|
  {
    if |s| > 0 {
      match ml(s)
      case Some(n) =>
        SplitPlainPartsAvoid(ml, Q, s[n..]);
        assert SplitBy(ml, s)[2..] == SplitBy(ml, s[n..]);
      case None =>
        SplitPlainPartsAvoid(ml, Q, s[1..]);
        var rest := SplitBy(ml, s[1..]);
        var parts := SplitBy(ml, s);
        assert !Q(s[0]);
        assert parts[0] == [s[0]] + rest[0];
        assert NoneSatisfy(Q, parts[0]) by {
          forall i | 0 <= i < |parts[0]|
            ensures !Q(parts[0][i])
          {
            if i > 0 { assert parts[0][i] == rest[0][i - 1]; }
          }
        }
        if |rest| >= 2 {
          assert parts[2..] == rest[2..];
        }
    }
  }

  /** One step of the scan where no match starts. */
  lemma SubStepPlain(ml: Matcher, repl: string -> string, s: string)
    requires Advances(ml) && |s| > 0 && ml(s).None?
    ensures SubBy(ml, repl, s) == [s[0]] + SubBy(ml, repl, s[1..])
  {
  }

  /** One step of the scan over a match. */
  lemma SubStepMatch(ml: Matcher, repl: string -> string, s: string, n: nat)
    requires Advances(ml) && |s| > 0 && ml(s) == Some(n)
    ensures n <= |s| && SubBy(ml, repl, s) == repl(s[..n]) + SubBy(ml, repl, s[n..])
  {
  }

  /** A run of characters on which no match can start is copied. */
  lemma {:induction false} SubSkipRun(ml: Matcher, repl: string -> string, Q: char -> bool, a: string, y: string)
    requires Advances(ml)
    requires forall t :: |t| > 0 && Q(t[0]) ==> ml(t).None?
    requires forall i :: 0 <= i < |a| ==> Q(a[i])
    ensures SubBy(ml, repl, a + y) == a + SubBy(ml, repl, y)
    decreases |a|
  {
    if |a| == 0 {
      assert a + y == y;
    } else {
      var z := SubBy(ml, repl, y);
      var s := a + y;
      assert s[0] == a[0] && s[1..] == a[1..] + y;
      SubStepPlain(ml, repl, s);
      SubSkipRun(ml, repl, Q, a[1..], y);
      assert [a[0]] + (a[1..] + z) == ([a[0]] + a[1..]) + z;
      assert [a[0]] + a[1..] == a;
    }
  }

  /** A match of all of `w` at the start. */
  lemma SubMatchFirst(ml: Matcher, repl: string -> string, w: string, y: string)
    requires Advances(ml) && |w| > 0 && ml(w + y) == Some(|w|)
    ensures SubBy(ml, repl, w + y) == repl(w) + SubBy(ml, repl, y)
  {
    var s := w + y;
    assert s[..|w|] == w && s[|w|..] == y;
    SubStepMatch(ml, repl, s, |w|);
  }

  /** A run on which no match starts, then a match of all of `w`. */
  lemma SubSkipThenMatch(ml: Matcher, repl: string -> string, Q: char -> bool, a: string, w: string, y: string)
    requires Advances(ml)
    requires forall t :: |t| > 0 && Q(t[0]) ==> ml(t).None?
    requires forall i :: 0 <= i < |a| ==> Q(a[i])
    requires |w| > 0 && ml(w + y) == Some(|w|)
    ensures SubBy(ml, repl, a + w + y) == a + repl(w) + SubBy(ml, repl, y)
  {
    var z := SubBy(ml, repl, y);
    SubMatchFirst(ml, repl, w, y);
    SubSkipRun(ml, repl, Q, a, w + y);
    assert a + w + y == a + (w + y);
    assert a + (repl(w) + z) == a + repl(w) + z;
  }

  /** `parts` with `a` put in front of its first part. */
  function PrependFirst(a: string, parts: seq<string>): seq<string>
    requires |parts| > 0
  {
    [a + parts[0]] + parts[1..]
  }

  lemma PrependFirstTwice(c: char, a: string, parts: seq<string>)
    requires |parts| > 0
    ensures PrependFirst([c], PrependFirst(a, parts)) == PrependFirst([c] + a, parts)
  {
    assert [c] + (a + parts[0]) == [c] + a + parts[0];
  }

  lemma SplitStepPlain(ml: Matcher, s: string)
    requires Advances(ml) && |s| > 0 && ml(s).None?
    ensures SplitBy(ml, s) == PrependFirst([s[0]], SplitBy(ml, s[1..]))
  {
  }

  /** A run on which no match starts joins the first plain part. */
  lemma {:induction false} SplitSkipRun(ml: Matcher, Q: char -> bool, a: string, y: string)
    requires Advances(ml)
    requires forall t :: |t| > 0 && Q(t[0]) ==> ml(t).None?
    requires forall i :: 0 <= i < |a| ==> Q(a[i])
    ensures SplitBy(ml, a + y) == PrependFirst(a, SplitBy(ml, y))
    decreases |a|
  {
    var r := SplitBy(ml, y);
    if |a| == 0 {
      assert a + y == y;
      assert a + r[0] == r[0];
      assert [r[0]] + r[1..] == r;
    } else {
      assert (a + y)[0] == a[0];
      SplitSkipRun(ml, Q, a[1..], y);
      SplitConsPlain(ml, a, y, r);
    }
  }

  lemma SplitConsPlain(ml: Matcher, a: string, y: string, r: seq<string>)
    requires Advances(ml) && |a| > 0 && ml(a + y).None?
    requires |r| > 0 && SplitBy(ml, a[1..] + y) == PrependFirst(a[1..], r)
    ensures SplitBy(ml, a + y) == PrependFirst(a, r)
  {
    var s := a + y;
    assert s[1..] == a[1..] + y;
    SplitStepPlain(ml, s);
    PrependFirstTwice(a[0], a[1..], r);
    assert [a[0]] + a[1..] == a;
  }

  /** A match of all of `w` at the start is the first protected part. */
  lemma SplitMatchFirst(ml: Matcher, w: string, y: string)
    requires Advances(ml) && |w| > 0 && ml(w + y) == Some(|w|)
    ensures SplitBy(ml, w + y) == ["", w] + SplitBy(ml, y)
  {
    var s := w + y;
    assert s[..|w|] == w && s[|w|..] == y;
  }
}
