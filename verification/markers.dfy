/** Modes "clean" and "undo": the two patterns that find the `==$…$==`
    marks highlighting leaves behind, and the rewrites built on them. */
module Markers {
  import opened Text
  import opened Scan
  import opened Partition
  import opened Normalize

  /** `MARKER_START + "$"` and `"$" + MARKER_END`. */
  const Open: string := "==$"
  const Close: string := "$=="

  /** Every match of `ml` starts with the opening mark. */
  ghost predicate OpensWithMark(ml: Matcher)
  {
    forall t :: ml(t).Some? ==> OccursAt(t, Open, 0)
  }

  // ---- remove_highlight: ==(\$[^\$]+\$)==

  /** The end of the run of characters other than `$` (newlines included)
      that starts at `from`. */
  function DollarFreeRun(s: string, from: nat): (r: nat)
    requires from <= |s|
    ensures from <= r <= |s|
    decreases |s| - from
  {
    if from == |s| || s[from] == '$' then from else DollarFreeRun(s, from + 1)
  }

  lemma {:induction false} DollarFreeRunIsMaximal(s: string, from: nat)
    requires from <= |s|
    ensures forall i :: from <= i < DollarFreeRun(s, from) ==> s[i] != '$'
    ensures DollarFreeRun(s, from) < |s| ==> s[DollarFreeRun(s, from)] == '$'
    decreases |s| - from
  {
    if from < |s| && s[from] != '$' {
      DollarFreeRunIsMaximal(s, from + 1);
    }
  }

  /** `t` has the shape `==$x$==` with `x` non-empty and free of `$`. */
  predicate IsCleanMatch(t: string)
  {
    && |t| >= 7 && t[..3] == Open && t[|t| - 3..] == Close
    && forall i :: 3 <= i < |t| - 3 ==> t[i] != '$'
  }

  /** The clean pattern tried at the start of `s`. The greedy `[^\$]+`
      stops at the first `$`, and only there can `\$==` follow. */
  function CleanLen(s: string): (r: Option<nat>)
    ensures r.Some? ==> 7 <= r.value <= |s|
  {
    if OccursAt(s, Open, 0) then
      var e := DollarFreeRun(s, 3);
      if 3 < e && OccursAt(s, Close, e) then Some(e + 3) else None
    else
      None
  }

  /** Backtracking cannot find another match: `CleanLen` reports the one
      prefix of `s` with the marked shape, and nothing when none has it. */
  lemma CleanLenIsUnique(s: string)
    ensures forall n :: 0 <= n <= |s| ==> (CleanLen(s) == Some(n) <==> IsCleanMatch(s[..n]))
  {
    if OccursAt(s, Open, 0) {
      var e := DollarFreeRun(s, 3);
      DollarFreeRunIsMaximal(s, 3);
      if 3 < e && OccursAt(s, Close, e) {
        assert s[..e + 3][..3] == s[..3];
        assert s[..e + 3][e..] == s[e..e + 3];
        assert IsCleanMatch(s[..e + 3]);
      }
      forall n | 0 <= n <= |s| && IsCleanMatch(s[..n])
        ensures CleanLen(s) == Some(n)
      {
        assert s[n - 3] == s[..n][n - 3] == '$';
        forall i | 3 <= i < n - 3
          ensures s[i] != '$'
        {
          assert s[i] == s[..n][i];
        }
        assert s[n - 3..n] == s[..n][n - 3..];
      }
    } else {
      forall n | 0 <= n <= |s| && IsCleanMatch(s[..n])
        ensures false
      {
      }
    }
  }

  lemma CleanLenAdvances()
    ensures Advances(CleanLen) && OpensWithMark(CleanLen)
  {
  }

  /** Group 1, `(\$[^\$]+\$)`: the match without its `==` on either side. */
  function CleanGroup(t: string): string
  {
    // every match is at least seven characters long
    if |t| < 4 then t else t[2..|t| - 2]
  }

  /** `pattern.sub(r'\1', text)` in `remove_highlight`. */
  function CleanMarkers(text: string): string
  {
    CleanLenAdvances();
    SubBy(CleanLen, CleanGroup, text)
  }

  /** `remove_highlight(text)` */
  function RemoveHighlight(text: string): string
  {
    NormalizeInlineMath(CleanMarkers(text))
  }

  // ---- undo_changes: ==\$(.*?)\$==

  /** `t` has the shape `==$x$==` with `x` free of newlines (`.` does not
      match a newline); `x` may be empty and may hold `$`. */
  predicate IsUndoMatch(t: string)
  {
    && |t| >= 6 && t[..3] == Open && t[|t| - 3..] == Close
    && forall i :: 3 <= i < |t| - 3 ==> t[i] != '\n'
  }

  /** The undo pattern tried at the start of `s`. The lazy `.*?` grows one
      character at a time and stops at the first `$==`, unless it meets a
      newline first. */
  function UndoLen(s: string): (r: Option<nat>)
    ensures r.Some? ==> 6 <= r.value <= |s|
  {
    if OccursAt(s, Open, 0) then
      match FindFrom(s, Close, 3)
      case Some(e) =>
        if forall i :: 3 <= i < e ==> s[i] != '\n' then Some(e + 3) else None
      case None => None
    else
      None
  }

  /** `UndoLen` reports the shortest prefix of `s` with the undo shape, and
      nothing when no prefix has it. */
  lemma UndoLenIsShortest(s: string)
    ensures forall n :: 0 <= n <= |s| ==>
      (UndoLen(s) == Some(n) <==>
        IsUndoMatch(s[..n]) && forall m :: 0 <= m < n ==> !IsUndoMatch(s[..m]))
    ensures UndoLen(s).None? ==> forall n :: 0 <= n <= |s| ==> !IsUndoMatch(s[..n])
  {
    FindFromIsFirst(s, Close, 3);
    forall n | 0 <= n <= |s| && IsUndoMatch(s[..n])
      ensures OccursAt(s, Open, 0) && OccursAt(s, Close, n - 3)
      ensures forall i :: 3 <= i < n - 3 ==> s[i] != '\n'
    {
      UndoMatchPrefix(s, n);
    }
    if OccursAt(s, Open, 0) && FindFrom(s, Close, 3).Some? {
      UndoFoundMatches(s, FindFrom(s, Close, 3).value);
    }
  }

  /** A prefix of the undo shape opens `s`, closes at its end and holds no
      newline in between. */
  lemma UndoMatchPrefix(s: string, n: nat)
    requires n <= |s| && IsUndoMatch(s[..n])
    ensures OccursAt(s, Open, 0) && OccursAt(s, Close, n - 3)
    ensures forall i :: 3 <= i < n - 3 ==> s[i] != '\n'
  {
    assert s[..n][..3] == s[..3];
    assert s[..n][n - 3..] == s[n - 3..n];
    forall i | 3 <= i < n - 3
      ensures s[i] != '\n'
    {
      assert s[i] == s[..n][i];
    }
  }

  /** An opening at the start and a closing at `e` give the undo shape to
      the prefix that ends with the closing, when no newline lies between. */
  lemma UndoFoundMatches(s: string, e: nat)
    requires OccursAt(s, Open, 0) && 3 <= e && OccursAt(s, Close, e)
    ensures (forall i :: 3 <= i < e ==> s[i] != '\n') ==> IsUndoMatch(s[..e + 3])
  {
    assert s[..e + 3][..3] == s[..3];
    assert s[..e + 3][e..] == s[e..e + 3];
  }

  lemma UndoLenAdvances()
    ensures Advances(UndoLen) && OpensWithMark(UndoLen)
  {
  }

  /** Group 1, `(.*?)`: the match without `==$` and `$==`. */
  function UndoGroup(t: string): string
  {
    // every match is at least six characters long
    if |t| < 6 then t else t[3..|t| - 3]
  }

  /** `undo_changes(text)` */
  function UndoChanges(text: string): string
  {
    UndoLenAdvances();
    SubBy(UndoLen, UndoGroup, text)
  }

  // ---- what both rewrites leave alone

  lemma NoMarkAt(ml: Matcher, s: string)
    requires OpensWithMark(ml) && (|s| == 0 || s[0] != '=' || !OccursAt(s, Open, 0))
    ensures ml(s).None?
  {
  }

  lemma NoOpenAtText(a: string, x: string)
    requires |a| > 0 && forall i :: 0 <= i < |a| ==> a[i] != '$'
    requires |x| == 0 || (x[0] != '$' && x[0] != '=')
    ensures !OccursAt(a + x, Open, 0)
  {
    var s := a + x;
    if |a| >= 3 {
      assert s[2] == a[2];
    } else if |a| == 2 && |x| > 0 {
      assert s[2] == x[0];
    } else if |a| == 1 && |x| > 0 {
      assert s[1] == x[0];
    }
  }

  /** No match can start on a character other than `=`. */
  lemma {:induction false} MarkSkipChar(ml: Matcher, repl: string -> string, c: char, x: string)
    requires Advances(ml) && OpensWithMark(ml) && c != '='
    ensures SubBy(ml, repl, [c] + x) == [c] + SubBy(ml, repl, x)
  {
    var s := [c] + x;
    NoMarkAt(ml, s);
    SubStepPlain(ml, repl, s);
    assert s[1..] == x;
  }

  /** Text without `$` is copied when what follows can neither complete
      nor continue an opening mark. */
  lemma MarkSkipFirst(ml: Matcher, repl: string -> string, a: string, x: string)
    requires Advances(ml) && OpensWithMark(ml) && |a| > 0
    requires forall i :: 0 <= i < |a| ==> a[i] != '$'
    requires |x| == 0 || (x[0] != '$' && x[0] != '=')
    ensures SubBy(ml, repl, a + x) == [a[0]] + SubBy(ml, repl, a[1..] + x)
  {
    var s := a + x;
    NoOpenAtText(a, x);
    NoMarkAt(ml, s);
    SubStepPlain(ml, repl, s);
    JoinHead(a, x);
  }

  /** Text without `$` is copied when what follows can neither complete
      nor continue an opening mark. */
  lemma {:induction false} MarkSkipText(ml: Matcher, repl: string -> string, a: string, x: string)
    requires Advances(ml) && OpensWithMark(ml)
    requires forall i :: 0 <= i < |a| ==> a[i] != '$'
    requires |x| == 0 || (x[0] != '$' && x[0] != '=')
    ensures SubBy(ml, repl, a + x) == a + SubBy(ml, repl, x)
    decreases |a|
  {
    if |a| == 0 {
      assert a + x == x;
    } else {
      var y := SubBy(ml, repl, x);
      MarkSkipFirst(ml, repl, a, x);
      MarkSkipText(ml, repl, a[1..], x);
      JoinHead(a, y);
    }
  }

  /** Text without the opening mark passes either rewrite unchanged. */
  lemma UnmarkedTextIsKept(text: string)
    requires !Contains(text, Open)
    ensures CleanMarkers(text) == text && UndoChanges(text) == text
  {
    CleanLenAdvances();
    UndoLenAdvances();
    forall q | 0 <= q < |text|
      ensures CleanLen(text[q..]).None? && UndoLen(text[q..]).None?
    {
      if OccursAt(text[q..], Open, 0) {
        assert text[q..][..3] == text[q..q + 3];
        assert OccursAt(text, Open, q);
      }
    }
    SubWithoutMatches(CleanLen, CleanGroup, text);
    SubWithoutMatches(UndoLen, UndoGroup, text);
  }

  /** In `==$w$==x` with `w` free of `$`, the first `$` after the opening
      mark is the one of the closing mark. */
  lemma MarkedShape(w: string, x: string)
    requires forall i :: 0 <= i < |w| ==> w[i] != '$'
    ensures OccursAt(Open + w + Close + x, Open, 0)
    ensures OccursAt(Open + w + Close + x, Close, |w| + 3)
    ensures forall i :: 3 <= i < |w| + 3 ==> (Open + w + Close + x)[i] == w[i - 3]
    ensures forall k :: 3 <= k < |w| + 3 ==> !OccursAt(Open + w + Close + x, Close, k)
  {
    var s := Open + w + Close + x;
    assert s[..3] == Open;
    assert s[|w| + 3..|w| + 6] == Close;
    assert forall i :: 3 <= i < |w| + 3 ==> s[i] == w[i - 3];
    forall k | 3 <= k < |w| + 3
      ensures !OccursAt(s, Close, k)
    {
      assert s[k] == w[k - 3];
    }
  }

  lemma CleanMarkMatch(w: string, x: string)
    requires |w| > 0 && forall i :: 0 <= i < |w| ==> w[i] != '$'
    ensures CleanLen(Open + w + Close + x) == Some(|w| + 6)
  {
    var s := Open + w + Close + x;
    MarkedShape(w, x);
    DollarFreeRunIsMaximal(s, 3);
    var r := DollarFreeRun(s, 3);
    assert s[|w| + 3] == '$';
  }

  lemma CleanGroupOfMark(w: string)
    ensures CleanGroup(Open + w + Close) == "$" + w + "$"
  {
    var t := Open + w + Close;
    assert t[2..|t| - 2] == "$" + w + "$";
  }

  /** A mark around `$`-free `w` is one match of the clean pattern: it
      becomes `$w$`. */
  lemma CleanMarked(w: string, x: string)
    requires |w| > 0 && forall i :: 0 <= i < |w| ==> w[i] != '$'
    ensures CleanMarkers(Open + w + Close + x) == "$" + w + "$" + CleanMarkers(x)
  {
    CleanLenAdvances();
    CleanMarkMatch(w, x);
    CleanGroupOfMark(w);
    SubMatchFirst(CleanLen, CleanGroup, Open + w + Close, x);
  }

  lemma UndoMarkMatch(w: string, x: string)
    requires forall i :: 0 <= i < |w| ==> w[i] != '$' && w[i] != '\n'
    ensures UndoLen(Open + w + Close + x) == Some(|w| + 6)
  {
    var s := Open + w + Close + x;
    MarkedShape(w, x);
    FindFromIsFirst(s, Close, 3);
  }

  /** A mark around `w` free of `$` and newlines is one match of the undo
      pattern: it becomes `w`. */
  lemma UndoMarked(w: string, x: string)
    requires forall i :: 0 <= i < |w| ==> w[i] != '$' && w[i] != '\n'
    ensures UndoChanges(Open + w + Close + x) == w + UndoChanges(x)
  {
    var t := Open + w + Close;
    UndoLenAdvances();
    UndoMarkMatch(w, x);
    SubMatchFirst(UndoLen, UndoGroup, t, x);
    assert t[3..|t| - 3] == w;
  }

  predicate NotEquals(c: char)
  {
    c != '='
  }

  /** Text without `=` is copied: no mark can start in it. */
  lemma MarkSkipRun(ml: Matcher, repl: string -> string, a: string, y: string)
    requires Advances(ml) && OpensWithMark(ml)
    requires forall i :: 0 <= i < |a| ==> a[i] != '='
    ensures SubBy(ml, repl, a + y) == a + SubBy(ml, repl, y)
  {
    forall t | |t| > 0 && NotEquals(t[0])
      ensures ml(t).None?
    {
      NoMarkAt(ml, t);
    }
    SubSkipRun(ml, repl, NotEquals, a, y);
  }
}
