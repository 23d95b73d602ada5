/** What the three modes promise about each other on plain prose: text
    with neither dollars nor backticks, so nothing in it is protected. */
module Laws {
  import opened Text
  import opened Scan
  import opened Partition
  import opened Normalize
  import opened Classifier
  import opened Highlight
  import opened Markers

  /** No backtick and no dollar: the whole text is one plain part. */
  predicate IsPlain(t: string)
  {
    forall i :: 0 <= i < |t| ==> t[i] != '`' && t[i] != '$'
  }

  predicate NoDollar(t: string)
  {
    forall i :: 0 <= i < |t| ==> t[i] != '$'
  }

  /** What cleaning leaves of a token after highlighting: a token that
      `replace_func` wraps in bare dollars, any other token (a guarded math
      token such as `x_1==2` among them) as it was. */
  function DelimitToken(w: string): (r: string)
  {
    if ReplaceToken(w) == w then w else "$" + w + "$"
  }

  /** The text with every token that `replace_func` wraps (a math token
      without `==`) put in dollars and nothing else changed. */
  function DelimitMath(t: string): string
  {
    TokenMatchAdvances();
    SubBy(TokenMatch, DelimitToken, t)
  }

  // ---- the first token of a text

  lemma FirstToken(t: string)
    requires |t| > 0 && IsTokenChar(t[0])
    ensures 0 < TokenRun(t) <= |t| && IsToken(t[..TokenRun(t)])
    ensures TokenRun(t) == |t| || !IsTokenChar(t[TokenRun(t)])
  {
    TokenMatchIsMaximalToken(t, TokenRun(t));
  }

  lemma NoDollarSuffix(t: string, n: nat)
    requires NoDollar(t) && n <= |t|
    ensures NoDollar(t[n..])
  {
    assert forall i :: 0 <= i < |t| - n ==> t[n..][i] == t[n + i];
  }

  lemma IsPlainSuffix(t: string, n: nat)
    requires IsPlain(t) && n <= |t|
    ensures IsPlain(t[n..])
  {
    assert forall i :: 0 <= i < |t| - n ==> t[n..][i] == t[n + i];
  }

  /** The rewrites at a text that starts with a token. */
  lemma RewriteFirst(t: string)
    requires |t| > 0 && IsTokenChar(t[0])
    ensures RewriteTokens(t) == ReplaceToken(t[..TokenRun(t)]) + RewriteTokens(t[TokenRun(t)..])
    ensures DelimitMath(t) == DelimitToken(t[..TokenRun(t)]) + DelimitMath(t[TokenRun(t)..])
  {
    RewriteFirstReplace(t);
    RewriteFirstDelimit(t);
  }

  lemma RewriteFirstReplace(t: string)
    requires |t| > 0 && IsTokenChar(t[0])
    ensures RewriteTokens(t) == ReplaceToken(t[..TokenRun(t)]) + RewriteTokens(t[TokenRun(t)..])
  {
    RewriteFirstWith(ReplaceToken, t);
  }

  lemma RewriteFirstDelimit(t: string)
    requires |t| > 0 && IsTokenChar(t[0])
    ensures DelimitMath(t) == DelimitToken(t[..TokenRun(t)]) + DelimitMath(t[TokenRun(t)..])
  {
    RewriteFirstWith(DelimitToken, t);
  }

  lemma RewriteFirstWith(repl: string -> string, t: string)
    requires |t| > 0 && IsTokenChar(t[0])
    ensures Advances(TokenMatch)
    ensures SubBy(TokenMatch, repl, t) == repl(t[..TokenRun(t)]) + SubBy(TokenMatch, repl, t[TokenRun(t)..])
  {
    TokenSubFirst(repl, t);
  }

  /** The rewrites at a text that starts with another character. */
  lemma RewriteSkip(t: string)
    requires |t| > 0 && !IsTokenChar(t[0])
    ensures RewriteTokens(t) == [t[0]] + RewriteTokens(t[1..])
    ensures DelimitMath(t) == [t[0]] + DelimitMath(t[1..])
  {
    TokenSubSkipChar(ReplaceToken, t);
    TokenSubSkipChar(DelimitToken, t);
  }

  lemma RewriteEmpty()
    ensures RewriteTokens("") == "" && DelimitMath("") == ""
  {
  }

  /** What follows a token in text without dollars never starts with `$`
      or `=`, before or after either rewrite. */
  lemma AfterToken(t: string, n: nat)
    requires NoDollar(t) && n <= |t| && (n == |t| || !IsTokenChar(t[n]))
    ensures NoDollar(t[n..])
    ensures |RewriteTokens(t[n..])| == 0 ||
      (RewriteTokens(t[n..])[0] != '$' && RewriteTokens(t[n..])[0] != '=')
    ensures |DelimitMath(t[n..])| == 0 ||
      (DelimitMath(t[n..])[0] != '$' && DelimitMath(t[n..])[0] != '=')
  {
    NoDollarSuffix(t, n);
    var r := t[n..];
    if |r| == 0 {
      RewriteEmpty();
    } else {
      assert r[0] == t[n];
      RewriteSkip(r);
    }
  }

  // ---- undo_changes(apply_highlight(T)) == T

  lemma UndoSkipCase(t: string)
    requires |t| > 0 && !IsTokenChar(t[0])
    requires UndoChanges(RewriteTokens(t[1..])) == t[1..]
    ensures UndoChanges(RewriteTokens(t)) == t
  {
    UndoLenAdvances();
    RewriteSkip(t);
    MarkSkipChar(UndoLen, UndoGroup, t[0], RewriteTokens(t[1..]));
    Recombine(t, 1);
  }

  lemma UndoTokenCase(t: string)
    requires |t| > 0 && IsTokenChar(t[0]) && NoDollar(t)
    requires UndoChanges(RewriteTokens(t[TokenRun(t)..])) == t[TokenRun(t)..]
    ensures UndoChanges(RewriteTokens(t)) == t
  {
    UndoLenAdvances();
    FirstToken(t);
    var n := TokenRun(t);
    var w, rest := t[..n], t[n..];
    var y := RewriteTokens(rest);
    RewriteFirst(t);
    AfterToken(t, n);
    ReplaceTokenWraps(w);
    TokenIsPlain(w);
    if ReplaceToken(w) == w {
      MarkSkipText(UndoLen, UndoGroup, w, y);
    } else {
      UndoMarked(w, y);
    }
    Recombine(t, n);
  }

  /** The undo scan takes the token rewrite back, token by token. */
  lemma {:induction false} UndoRewritten(t: string)
    requires NoDollar(t)
    ensures UndoChanges(RewriteTokens(t)) == t
    decreases |t|
  {
    if |t| == 0 {
      RewriteEmpty();
      UndoLenAdvances();
    } else if !IsTokenChar(t[0]) {
      NoDollarSuffix(t, 1);
      UndoRewritten(t[1..]);
      UndoSkipCase(t);
    } else {
      FirstToken(t);
      NoDollarSuffix(t, TokenRun(t));
      UndoRewritten(t[TokenRun(t)..]);
      UndoTokenCase(t);
    }
  }

  // ---- cleaning after the token rewrite

  lemma CleanSkipCase(t: string)
    requires |t| > 0 && !IsTokenChar(t[0])
    requires CleanMarkers(RewriteTokens(t[1..])) == DelimitMath(t[1..])
    ensures CleanMarkers(RewriteTokens(t)) == DelimitMath(t)
  {
    CleanLenAdvances();
    RewriteSkip(t);
    MarkSkipChar(CleanLen, CleanGroup, t[0], RewriteTokens(t[1..]));
  }

  lemma CleanTokenCase(t: string)
    requires |t| > 0 && IsTokenChar(t[0]) && NoDollar(t)
    requires CleanMarkers(RewriteTokens(t[TokenRun(t)..])) == DelimitMath(t[TokenRun(t)..])
    ensures CleanMarkers(RewriteTokens(t)) == DelimitMath(t)
  {
    CleanLenAdvances();
    FirstToken(t);
    var n := TokenRun(t);
    var w, rest := t[..n], t[n..];
    var y := RewriteTokens(rest);
    RewriteFirst(t);
    AfterToken(t, n);
    ReplaceTokenWraps(w);
    TokenIsPlain(w);
    if ReplaceToken(w) == w {
      MarkSkipText(CleanLen, CleanGroup, w, y);
    } else {
      CleanMarked(w, y);
    }
  }

  /** Cleaning drops exactly the `==` marks that the token rewrite added. */
  lemma {:induction false} CleanRewritten(t: string)
    requires NoDollar(t)
    ensures CleanMarkers(RewriteTokens(t)) == DelimitMath(t)
    decreases |t|
  {
    if |t| == 0 {
      RewriteEmpty();
      CleanLenAdvances();
    } else if !IsTokenChar(t[0]) {
      NoDollarSuffix(t, 1);
      CleanRewritten(t[1..]);
      CleanSkipCase(t);
    } else {
      FirstToken(t);
      NoDollarSuffix(t, TokenRun(t));
      CleanRewritten(t[TokenRun(t)..]);
      CleanTokenCase(t);
    }
  }

  // ---- the final normalisation changes nothing on plain prose

  lemma NormalizeKeepsToken(w: string, y: string)
    requires IsToken(w) && NormalizeInlineMath(y) == y
    ensures NormalizeInlineMath(w + y) == w + y
  {
    TokenIsPlain(w);
    NormalizeSkipPlain(w, y);
  }

  /** `$w$` around a token is already tight. */
  lemma NormalizeKeepsSpan(w: string, y: string)
    requires IsToken(w) && NormalizeInlineMath(y) == y
    ensures NormalizeInlineMath("$" + w + "$" + y) == "$" + w + "$" + y
  {
    TokenIsTight(w);
    TokenIsPlain(w);
    NormalizeInlineSpan(w, y);
  }

  lemma MarkAsSpan(w: string, y: string)
    ensures Open + w + Close + y == "==" + ("$" + w + "$" + ("==" + y))
  {
  }

  /** `==$w$==` around a token is already tight. */
  lemma NormalizeKeepsMark(w: string, y: string)
    requires IsToken(w) && NormalizeInlineMath(y) == y
    ensures NormalizeInlineMath(Open + w + Close + y) == Open + w + Close + y
  {
    var z := "$" + w + "$" + ("==" + y);
    NormalizeSkipPlain("==", y);
    NormalizeKeepsSpan(w, "==" + y);
    NormalizeSkipPlain("==", z);
    MarkAsSpan(w, y);
  }

  lemma NormalizeEmpty()
    ensures NormalizeInlineMath("") == ""
  {
    NormalizeIsSub("");
  }

  lemma NormalSkipCase(t: string)
    requires |t| > 0 && !IsTokenChar(t[0]) && t[0] != '`' && t[0] != '$'
    requires NormalizeInlineMath(RewriteTokens(t[1..])) == RewriteTokens(t[1..])
    requires NormalizeInlineMath(DelimitMath(t[1..])) == DelimitMath(t[1..])
    ensures NormalizeInlineMath(RewriteTokens(t)) == RewriteTokens(t)
    ensures NormalizeInlineMath(DelimitMath(t)) == DelimitMath(t)
  {
    RewriteSkip(t);
    NormalizeSkipPlain([t[0]], RewriteTokens(t[1..]));
    NormalizeSkipPlain([t[0]], DelimitMath(t[1..]));
  }

  lemma NormalTokenCase(t: string)
    requires |t| > 0 && IsTokenChar(t[0])
    requires NormalizeInlineMath(RewriteTokens(t[TokenRun(t)..])) == RewriteTokens(t[TokenRun(t)..])
    requires NormalizeInlineMath(DelimitMath(t[TokenRun(t)..])) == DelimitMath(t[TokenRun(t)..])
    ensures NormalizeInlineMath(RewriteTokens(t)) == RewriteTokens(t)
    ensures NormalizeInlineMath(DelimitMath(t)) == DelimitMath(t)
  {
    FirstToken(t);
    var n := TokenRun(t);
    var w, rest := t[..n], t[n..];
    RewriteFirst(t);
    ReplaceTokenWraps(w);
    if ReplaceToken(w) == w {
      NormalizeKeepsToken(w, RewriteTokens(rest));
      NormalizeKeepsToken(w, DelimitMath(rest));
    } else {
      NormalizeKeepsMark(w, RewriteTokens(rest));
      NormalizeKeepsSpan(w, DelimitMath(rest));
    }
  }

  /** On plain prose every inline span the rewrites create is already
      tight, so normalising their output changes nothing. */
  lemma {:induction false} RewrittenIsNormal(t: string)
    requires IsPlain(t)
    ensures NormalizeInlineMath(RewriteTokens(t)) == RewriteTokens(t)
    ensures NormalizeInlineMath(DelimitMath(t)) == DelimitMath(t)
    decreases |t|
  {
    if |t| == 0 {
      RewriteEmpty();
      NormalizeEmpty();
    } else if !IsTokenChar(t[0]) {
      IsPlainSuffix(t, 1);
      RewrittenIsNormal(t[1..]);
      NormalSkipCase(t);
    } else {
      FirstToken(t);
      IsPlainSuffix(t, TokenRun(t));
      RewrittenIsNormal(t[TokenRun(t)..]);
      NormalTokenCase(t);
    }
  }

  // ---- the laws

  /** On plain prose, highlighting is the token rewrite alone. */
  lemma HighlightPlainProse(t: string)
    requires IsPlain(t)
    ensures ApplyHighlight(t) == RewriteTokens(t)
  {
    HighlightPlainText(t);
    RewrittenIsNormal(t);
  }

  /** Undo takes highlighting back exactly on text with neither dollars
      nor backticks. */
  lemma UndoAfterHighlight(t: string)
    requires IsPlain(t)
    ensures UndoChanges(ApplyHighlight(t)) == t
  {
    HighlightPlainProse(t);
    assert NoDollar(t);
    UndoRewritten(t);
  }

  /** Cleaning after highlighting leaves each token that `replace_func`
      wraps in bare dollars and the rest of the text as it was. */
  lemma CleanAfterHighlight(t: string)
    requires IsPlain(t)
    ensures RemoveHighlight(ApplyHighlight(t)) == DelimitMath(t)
  {
    HighlightPlainProse(t);
    assert NoDollar(t);
    CleanRewritten(t);
    RewrittenIsNormal(t);
  }
}
