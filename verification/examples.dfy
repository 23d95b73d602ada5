/** Worked examples of the three modes on concrete Markdown sentences. */
module Examples {
  import opened Text
  import opened Scan
  import opened Partition
  import opened Normalize
  import opened Classifier
  import opened Highlight
  import opened Markers
  import opened Laws

  predicate NoEquals(t: string)
  {
    forall i :: 0 <= i < |t| ==> t[i] != '='
  }

  // ---- one mark in a sentence

  lemma NormalizePlainText(b: string)
    requires IsPlain(b)
    ensures NormalizeInlineMath(b) == b
  {
    NormalizeSkipPlain(b, "");
    NormalizeEmpty();
    assert b + "" == b;
  }

  lemma MarksEmpty()
    ensures CleanMarkers("") == "" && UndoChanges("") == ""
  {
  }

  lemma CleanMarksInSentence(a: string, w: string, b: string)
    requires NoEquals(a) && NoEquals(b)
    requires |w| > 0 && forall i :: 0 <= i < |w| ==> w[i] != '$'
    ensures CleanMarkers(a + Open + w + Close + b) == a + "$" + w + "$" + b
  {
    CleanLenAdvances();
    var m := Open + w + Close;
    MarkSkipRun(CleanLen, CleanGroup, a, m + b);
    CleanMarked(w, b);
    MarkSkipRun(CleanLen, CleanGroup, b, "");
    MarksEmpty();
    assert b + "" == b;
    Regroup(a, Open, w, Close, b);
    Regroup(a, "$", w, "$", b);
  }

  /** `a`, a mark around `w`, `b`: cleaning keeps `$w$`. */
  lemma CleanSentence(a: string, w: string, b: string)
    requires NoEquals(a) && NoEquals(b) && IsPlain(a) && IsPlain(b)
    requires |w| > 0 && Tight(w) && forall i :: 0 <= i < |w| ==> w[i] != '$' && w[i] != '\n'
    ensures RemoveHighlight(a + Open + w + Close + b) == a + "$" + w + "$" + b
  {
    CleanMarksInSentence(a, w, b);
    var span := "$" + w + "$" + b;
    NormalizeSkipPlain(a, span);
    NormalizeInlineSpan(w, b);
    StripTight(w);
    NormalizePlainText(b);
    Regroup(a, "$", w, "$", b);
  }

  /** `a`, a mark around `w`, `b`: undoing keeps `w` alone. */
  lemma UndoSentence(a: string, w: string, b: string)
    requires NoEquals(a) && NoEquals(b)
    requires forall i :: 0 <= i < |w| ==> w[i] != '$' && w[i] != '\n'
    ensures UndoChanges(a + Open + w + Close + b) == a + w + b
  {
    UndoLenAdvances();
    var m := Open + w + Close;
    MarkSkipRun(UndoLen, UndoGroup, a, m + b);
    UndoMarked(w, b);
    MarkSkipRun(UndoLen, UndoGroup, b, "");
    MarksEmpty();
    assert b + "" == b;
    Regroup(a, Open, w, Close, b);
    Regroup(a, "$", w, "$", b);
  }

  lemma MarkedSentenceParts(a: string, w: string, b: string)
    requires a == "Then " && w == "k-1" && b == " terms remain."
    ensures NoEquals(a) && NoEquals(b) && IsPlain(a) && IsPlain(b)
    ensures |w| > 0 && Tight(w) && forall i :: 0 <= i < |w| ==> w[i] != '$' && w[i] != '\n'
  {
  }

  lemma MarkedSentenceText(s: string, a: string, w: string, b: string)
    requires s == "Then ==$k-1$== terms remain."
    requires a == "Then " && w == "k-1" && b == " terms remain."
    ensures s == a + Open + w + Close + b
  {
  }

  lemma MarkedSentenceResults(c: string, u: string, a: string, w: string, b: string)
    requires c == "Then $k-1$ terms remain." && u == "Then k-1 terms remain."
    requires a == "Then " && w == "k-1" && b == " terms remain."
    ensures c == a + "$" + w + "$" + b && u == a + w + b
  {
  }

  /** `"Then ==$k-1$== terms remain."` cleans to `"Then $k-1$ terms remain."`
      and undoes to `"Then k-1 terms remain."`. */
  lemma MarkedSentenceExample()
    ensures RemoveHighlight("Then ==$k-1$== terms remain.") == "Then $k-1$ terms remain."
    ensures UndoChanges("Then ==$k-1$== terms remain.") == "Then k-1 terms remain."
  {
    var a, w, b := "Then ", "k-1", " terms remain.";
    MarkedSentenceParts(a, w, b);
    MarkedSentenceText("Then ==$k-1$== terms remain.", a, w, b);
    MarkedSentenceResults("Then $k-1$ terms remain.", "Then k-1 terms remain.", a, w, b);
    CleanSentence(a, w, b);
    UndoSentence(a, w, b);
  }

  // ---- a mark that is not adjacent to its span

  lemma LooseMarkHasNoOpening(s: string)
    requires s == "== $x$=="
    ensures !Contains(s, Open)
  {
    assert s[1] == '=' && s[2] == ' ' && s[3] == '$' && s[4] == 'x' && s[5] == '$';
    forall k | 0 <= k <= |s| - 3
      ensures !OccursAt(s, Open, k)
    {
      assert s[k..k + 3][1] == s[k + 1] && s[k..k + 3][2] == s[k + 2];
    }
  }

  lemma LooseMarkIsNormal(a: string, w: string, c: string)
    requires a == "== " && w == "x" && c == "=="
    ensures NormalizeInlineMath(a + "$" + w + "$" + c) == a + "$" + w + "$" + c
  {
    var span := "$" + w + "$" + c;
    NormalizeSkipPlain(a, span);
    NormalizeInlineSpan(w, c);
    StripTight(w);
    NormalizePlainText(c);
    Regroup(a, "$", w, "$", c);
  }

  lemma LooseMarkText(s: string, a: string, w: string, c: string)
    requires s == "== $x$==" && a == "== " && w == "x" && c == "=="
    ensures s == a + "$" + w + "$" + c
  {
  }

  /** `"== $x$=="` is not a highlight mark: cleaning leaves it as it is. */
  lemma LooseMarkIsKept()
    ensures RemoveHighlight("== $x$==") == "== $x$=="
  {
    var s := "== $x$==";
    LooseMarkHasNoOpening(s);
    UnmarkedTextIsKept(s);
    LooseMarkText(s, "== ", "x", "==");
    LooseMarkIsNormal("== ", "x", "==");
  }

  // ---- apply_highlight on a sample sentence

  lemma WorkedSplit(a: string, w: string, b: string)
    requires a == "Let " && w == " x " && IsPlain(b)
    ensures Split(a + "$" + w + "$" + b) == [a, "$" + w + "$", b]
  {
    SplitWithoutDelimiters(b);
    SplitInlineSpan(w, b);
    SplitSkipPlain(a, "$" + w + "$" + b);
    Regroup(a, "$", w, "$", b);
    assert a + "" == a;
  }

  /** English words of the sentence: none is a math variable. */
  lemma KeptWord(w: string)
    requires || w == "be" || w == "given" || w == "Then" || w == "terms" || w == "remain"
             || w == "We" || w == "use" || w == "slam" || w == "filtering" || w == "Let"
    ensures IsToken(w) && ReplaceToken(w) == w
  {
    assert forall i :: 0 <= i < |w| ==> IsAsciiLetter(w[i]);
    assert w !in MathVars;
    WordIsKept(w);
  }

  lemma KeptWords(w0: string, w1: string, w2: string)
    requires (w0, w1, w2) == ("be", "given", "Then") || (w0, w1, w2) == ("We", "use", "slam")
    ensures IsToken(w0) && IsToken(w1) && IsToken(w2)
    ensures ReplaceToken(w0) == w0 && ReplaceToken(w1) == w1 && ReplaceToken(w2) == w2
  {
    KeptWord(w0);
    KeptWord(w1);
    KeptWord(w2);
  }

  lemma MapEachThree(repl: string -> string, w0: string, w1: string, w2: string)
    ensures MapEach(repl, [w0, w1, w2]) == [repl(w0), repl(w1), repl(w2)]
  {
    var words := [w0, w1, w2];
    assert MapEach(repl, words[2..]) == [repl(w2)] + MapEach(repl, words[3..]);
  }

  lemma InterleaveThree(s0: string, s1: string, s2: string, s3: string, w0: string, w1: string, w2: string)
    ensures Interleave([s0, s1, s2, s3], [w0, w1, w2]) == s0 + w0 + s1 + w1 + s2 + w2 + s3
  {
    var seps, words := [s0, s1, s2, s3], [w0, w1, w2];
    assert Interleave(seps[3..], words[3..]) == s3;
    assert Interleave(seps[2..], words[2..]) == s2 + w2 + s3;
    assert Interleave(seps[1..], words[1..]) == s1 + w1 + (s2 + w2 + s3);
  }

  lemma Separator(s: string)
    requires s == " " || s == "." || s == ". " || s == ""
    ensures NoneSatisfy(IsTokenChar, s)
  {
  }

  /** Three words between separators: each is handed to the classifier
      whole, and the separators are copied. */
  lemma RewriteThree(s0: string, s1: string, s2: string, s3: string, w0: string, w1: string, w2: string)
    requires IsToken(w0) && IsToken(w1) && IsToken(w2)
    requires NoneSatisfy(IsTokenChar, s0) && NoneSatisfy(IsTokenChar, s1)
    requires NoneSatisfy(IsTokenChar, s2) && NoneSatisfy(IsTokenChar, s3)
    requires |s1| > 0 && |s2| > 0
    ensures RewriteTokens(s0 + w0 + s1 + w1 + s2 + w2 + s3) ==
      s0 + ReplaceToken(w0) + s1 + ReplaceToken(w1) + s2 + ReplaceToken(w2) + s3
  {
    var seps, words := [s0, s1, s2, s3], [w0, w1, w2];
    assert Separated(seps, words);
    RewriteSeparated(ReplaceToken, seps, words);
    MapEachThree(ReplaceToken, w0, w1, w2);
    InterleaveThree(s0, s1, s2, s3, w0, w1, w2);
    InterleaveThree(s0, s1, s2, s3, ReplaceToken(w0), ReplaceToken(w1), ReplaceToken(w2));
  }

  /** One word between separators. */
  lemma RewriteOne(s0: string, s1: string, w0: string)
    requires IsToken(w0) && NoneSatisfy(IsTokenChar, s0) && NoneSatisfy(IsTokenChar, s1)
    ensures RewriteTokens(s0 + w0 + s1) == s0 + ReplaceToken(w0) + s1
  {
    var seps, words := [s0, s1], [w0];
    assert Separated(seps, words);
    RewriteSeparated(ReplaceToken, seps, words);
    assert Interleave(seps[1..], words[1..]) == s1;
    assert MapEach(ReplaceToken, words[1..]) == [];
    assert Interleave(seps[1..], MapEach(ReplaceToken, words)[1..]) == s1;
  }

  lemma MathWordShape(w: string)
    requires w == "k-1"
    ensures IsToken(w) && forall i :: 0 <= i < |w| ==> w[i] != '='
  {
    assert IsTokenChar(w[0]) && IsTokenChar(w[1]) && IsTokenChar(w[2]);
  }

  lemma WorkedMathWord(w: string)
    requires w == "k-1"
    ensures IsToken(w) && ReplaceToken(w) == "==$" + w + "$=="
  {
    MathExamples();
    MathWordShape(w);
    MathTokenIsMarked(w);
  }

  /** Three kept words between separators come back unchanged. */
  lemma KeepThree(s0: string, s1: string, s2: string, s3: string, w0: string, w1: string, w2: string)
    requires IsToken(w0) && IsToken(w1) && IsToken(w2)
    requires ReplaceToken(w0) == w0 && ReplaceToken(w1) == w1 && ReplaceToken(w2) == w2
    requires NoneSatisfy(IsTokenChar, s0) && NoneSatisfy(IsTokenChar, s1)
    requires NoneSatisfy(IsTokenChar, s2) && NoneSatisfy(IsTokenChar, s3)
    requires |s1| > 0 && |s2| > 0
    ensures RewriteTokens(s0 + w0 + s1 + w1 + s2 + w2 + s3) == s0 + w0 + s1 + w1 + s2 + w2 + s3
  {
    RewriteThree(s0, s1, s2, s3, w0, w1, w2);
  }

  lemma FirstChunkText(c: string, s0: string, s1: string, s2: string, s3: string, w0: string, w1: string, w2: string)
    requires c == " be given. Then "
    requires s0 == " " && s1 == " " && s2 == ". " && s3 == " " && w0 == "be" && w1 == "given" && w2 == "Then"
    ensures c == s0 + w0 + s1 + w1 + s2 + w2 + s3
  {
  }

  /** `" be given. Then "` is kept. */
  lemma FirstChunk(c: string)
    requires c == " be given. Then "
    ensures RewriteTokens(c) == c && |c| > 0 && !IsTokenChar(c[|c| - 1])
  {
    var s0, s1, s2, s3 := " ", " ", ". ", " ";
    var w0, w1, w2 := "be", "given", "Then";
    KeptWords(w0, w1, w2);
    Separator(s0);
    Separator(s2);
    KeepThree(s0, s1, s2, s3, w0, w1, w2);
    FirstChunkText(c, s0, s1, s2, s3, w0, w1, w2);
  }

  lemma SecondChunkText(c: string, r: string, s0: string, s1: string, s2: string, s3: string,
                        w0: string, w1: string, w2: string, m: string)
    requires c == "k-1 terms remain. " && r == "==$k-1$== terms remain. "
    requires s0 == "" && s1 == " " && s2 == " " && s3 == ". "
    requires w0 == "k-1" && w1 == "terms" && w2 == "remain" && m == "==$" + w0 + "$=="
    ensures c == s0 + w0 + s1 + w1 + s2 + w2 + s3
    ensures r == s0 + m + s1 + w1 + s2 + w2 + s3
  {
  }

  /** `"k-1 terms remain. "`: only `k-1` is marked. */
  lemma SecondChunk(c: string)
    requires c == "k-1 terms remain. "
    ensures RewriteTokens(c) == "==$k-1$== terms remain. "
    ensures |c| > 0 && !IsTokenChar(c[|c| - 1])
  {
    var s0, s1, s2, s3 := "", " ", " ", ". ";
    var w0, w1, w2 := "k-1", "terms", "remain";
    var m := "==$" + w0 + "$==";
    WorkedMathWord(w0);
    KeptWord(w1);
    KeptWord(w2);
    Separator(s0);
    Separator(s1);
    Separator(s3);
    RewriteThree(s0, s1, s2, s3, w0, w1, w2);
    SecondChunkText(c, "==$k-1$== terms remain. ", s0, s1, s2, s3, w0, w1, w2, m);
  }

  lemma ThirdChunkText(c: string, s0: string, s1: string, s2: string, s3: string, w0: string, w1: string, w2: string)
    requires c == "We use slam "
    requires s0 == "" && s1 == " " && s2 == " " && s3 == " " && w0 == "We" && w1 == "use" && w2 == "slam"
    ensures c == s0 + w0 + s1 + w1 + s2 + w2 + s3
  {
  }

  /** `"We use slam "` is kept: `slam` is a stop word. */
  lemma ThirdChunk(c: string)
    requires c == "We use slam "
    ensures RewriteTokens(c) == c && |c| > 0 && !IsTokenChar(c[|c| - 1])
  {
    var s0, s1, s2, s3 := "", " ", " ", " ";
    var w0, w1, w2 := "We", "use", "slam";
    KeptWords(w0, w1, w2);
    Separator(s0);
    Separator(s1);
    KeepThree(s0, s1, s2, s3, w0, w1, w2);
    ThirdChunkText(c, s0, s1, s2, s3, w0, w1, w2);
  }

  /** `"filtering."` is kept. */
  lemma LastChunk(c: string)
    requires c == "filtering."
    ensures RewriteTokens(c) == c
  {
    var s0, s1, w0 := "", ".", "filtering";
    KeptWord(w0);
    Separator(s0);
    Separator(s1);
    RewriteOne(s0, s1, w0);
    assert s0 + w0 + s1 == c;
  }

  /** Rewriting four pieces, each cut after a character outside the token
      alphabet, piece by piece. */
  lemma RewriteFour(c1: string, c2: string, c3: string, c4: string)
    requires |c1| > 0 && !IsTokenChar(c1[|c1| - 1])
    requires |c2| > 0 && !IsTokenChar(c2[|c2| - 1])
    requires |c3| > 0 && !IsTokenChar(c3[|c3| - 1])
    ensures RewriteTokens(c1 + c2 + c3 + c4) ==
      RewriteTokens(c1) + RewriteTokens(c2) + RewriteTokens(c3) + RewriteTokens(c4)
  {
    RewriteCut(c3, c4);
    RewriteCut(c2, c3 + c4);
    RewriteCut(c1, c2 + (c3 + c4));
    assert c1 + c2 + c3 + c4 == c1 + (c2 + (c3 + c4));
  }

  /** The plain part after the span: only `k-1` is marked. */
  lemma WorkedTail(c1: string, c2: string, c3: string, c4: string)
    requires c1 == " be given. Then " && c2 == "k-1 terms remain. "
    requires c3 == "We use slam " && c4 == "filtering."
    ensures IsPlain(c1 + c2 + c3 + c4)
    ensures RewriteTokens(c1 + c2 + c3 + c4) == c1 + "==$k-1$== terms remain. " + c3 + c4
  {
    FirstChunk(c1);
    SecondChunk(c2);
    ThirdChunk(c3);
    LastChunk(c4);
    RewriteFour(c1, c2, c3, c4);
    PlainJoin(c1, c2, c3, c4);
  }

  lemma PlainJoin(c1: string, c2: string, c3: string, c4: string)
    requires c1 == " be given. Then " && c2 == "k-1 terms remain. "
    requires c3 == "We use slam " && c4 == "filtering."
    ensures IsPlain(c1 + c2 + c3 + c4)
  {
    assert IsPlain(c1) && IsPlain(c2) && IsPlain(c3) && IsPlain(c4);
    PlainParts(c1, c2, c3, c4);
  }

  lemma PlainParts(c1: string, c2: string, c3: string, c4: string)
    requires IsPlain(c1) && IsPlain(c2) && IsPlain(c3) && IsPlain(c4)
    ensures IsPlain(c1 + c2 + c3 + c4)
  {
  }

  /** The plain part before the span is kept. */
  lemma WorkedHead(a: string)
    requires a == "Let "
    ensures RewriteTokens(a) == a
  {
    KeptWord("Let");
    Separator("");
    Separator(" ");
    RewriteOne("", " ", "Let");
    assert "" + "Let" + " " == a;
  }

  lemma WorkedNormalize(a: string, w: string, b: string)
    requires a == "Let " && w == " x "
    requires NormalizeInlineMath(b) == b
    ensures NormalizeInlineMath(a + "$" + w + "$" + b) == a + "$" + "x" + "$" + b
  {
    var span := "$" + w + "$" + b;
    SpacedX(w);
    assert IsPlain(a);
    NormalizeSkipPlain(a, span);
    NormalizeInlineSpan(w, b);
    Regroup(a, "$", w, "$", b);
    Regroup(a, "$", "x", "$", b);
  }

  /** `$ x $` holds `x` padded by one space on each side. */
  lemma SpacedX(w: string)
    requires w == " x "
    ensures |w| > 0 && (forall i :: 0 <= i < |w| ==> w[i] != '$' && w[i] != '\n')
    ensures Strip(w) == "x"
  {
    StripPadded(" ", "x", " ");
    assert " " + "x" + " " == w;
  }

  lemma WorkedParts(a: string, m: string, b: string)
    ensures Concat(HighlightParts([a, m, b])) == RewriteTokens(a) + m + RewriteTokens(b)
  {
    var parts := [a, m, b];
    assert parts[2..] == [b];
    assert HighlightParts(parts) == [RewriteTokens(a), m] + [RewriteTokens(b)];
    var r := [RewriteTokens(a), m, RewriteTokens(b)];
    assert Concat(r) == RewriteTokens(a) + Concat(r[1..]);
    assert Concat(r[1..]) == m + Concat(r[2..]);
    assert Concat(r[2..]) == RewriteTokens(b) + Concat([]);
  }

  lemma WorkedExampleAt(a: string, w: string, b: string)
    requires a == "Let " && w == " x " && IsPlain(b)
    ensures ApplyHighlight(a + "$" + w + "$" + b) == a + "$" + "x" + "$" + RewriteTokens(b)
  {
    WorkedSplit(a, w, b);
    WorkedParts(a, "$" + w + "$", b);
    WorkedHead(a);
    RewrittenIsNormal(b);
    WorkedNormalize(a, w, RewriteTokens(b));
    Regroup(a, "$", w, "$", RewriteTokens(b));
  }

  /** The highlighter run on the sample sentence
      `"Let $ x $ be given. Then k-1 terms remain. We use slam filtering."`,
      written as a join of its pieces: the spaced span is tightened, the
      English words and the stop word `slam` are kept, and only `k-1` is
      taken for math. */
  lemma HighlightExample()
    ensures ApplyHighlight("Let $ x $" + " be given. Then " + "k-1 terms remain. " + "We use slam " + "filtering.")
      == "Let $x$" + " be given. Then " + "==$k-1$== terms remain. " + "We use slam " + "filtering."
  {
    var c1, c2, c3, c4 := " be given. Then ", "k-1 terms remain. ", "We use slam ", "filtering.";
    var a, w := "Let ", " x ";
    var b := c1 + c2 + c3 + c4;
    WorkedTail(c1, c2, c3, c4);
    WorkedExampleAt(a, w, b);
    SpanText("Let $ x $", "Let $x$", a, w);
    Regroup("Let $ x $", c1, c2, c3, c4);
    Regroup("Let $x$", c1, "==$k-1$== terms remain. ", c3, c4);
  }

  lemma SpanText(s: string, r: string, a: string, w: string)
    requires s == "Let $ x $" && r == "Let $x$" && a == "Let " && w == " x "
    ensures s == a + "$" + w + "$" && r == a + "$" + "x" + "$"
  {
  }
}
