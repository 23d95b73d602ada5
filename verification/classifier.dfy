/** The token classifier: `replace_func`, the word lists and the two
    feature patterns.

    The highlighter hands the classifier one token at a time, a maximal run
    of the token alphabet `[a-zA-Z0-9_\\^{}\-+=<>]`. A token is math when
    the complex pattern or the operation pattern finds a match anywhere in
    it, or when it is one of the math variables and not a stop word. A math
    token is wrapped as `==$token$==`; every other token is kept. */
module Classifier {
  import opened Text

  /** Single letters and Greek names that are almost always math. */
  const MathVars: set<string> := {
    "x", "y", "z", "u", "v", "w",
    "k", "i", "j", "t", "n", "m",
    "A", "B", "D", "F", "H", "P", "Q", "R", "K", "I", "S", "Z", "X", "Y", "L", "U", "N", "M", "E", "T", "C", "G",
    "theta", "mu", "sigma", "alpha", "beta", "gamma", "lambda", "delta", "phi", "omega"
  }

  /** Words that are certainly English. */
  const EnglishStopwords: set<string> := {
    "I", "in", "is", "at", "to", "of", "on", "if", "or", "by", "we", "it", "so", "as", "be",
    "slam", "matrix", "vector", "filter", "model", "update", "predict", "estimate", "map"
  }

  /** The highlight markers put around a wrapped token. */
  const MarkerStart: string := "=="
  const MarkerEnd: string := "=="

  predicate IsAsciiLetter(c: char)
  {
    'a' <= c <= 'z' || 'A' <= c <= 'Z'
  }

  predicate IsAsciiDigit(c: char)
  {
    '0' <= c <= '9'
  }

  predicate IsAsciiAlnum(c: char)
  {
    IsAsciiLetter(c) || IsAsciiDigit(c)
  }

  /** A character of the token alphabet `[a-zA-Z0-9_\\^{}\-+=<>]`. */
  predicate IsTokenChar(c: char)
  {
    IsAsciiAlnum(c) || c in "_\\^{}-+=<>"
  }

  /** A non-empty word over the token alphabet. */
  predicate IsToken(w: string)
  {
    |w| > 0 && forall i :: 0 <= i < |w| ==> IsTokenChar(w[i])
  }

  // ---- COMPLEX_MATH_PATTERN: [a-zA-Z0-9\\]+[_\^\{][a-zA-Z0-9_\^\{\}\-\+\\]+

  predicate IsComplexHead(c: char)
  {
    IsAsciiAlnum(c) || c == '\\'
  }

  predicate IsComplexMid(c: char)
  {
    c == '_' || c == '^' || c == '{'
  }

  predicate IsComplexTail(c: char)
  {
    IsAsciiAlnum(c) || c in "_^{}-+\\"
  }

  /** The complex pattern matches `w[i..k]`, with its middle character at `j`. */
  ghost predicate ComplexMatchAt(w: string, i: int, j: int, k: int)
  {
    && 0 <= i < j && j + 1 < k <= |w|
    && (forall m :: i <= m < j ==> IsComplexHead(w[m]))
    && IsComplexMid(w[j])
    && (forall m :: j < m < k ==> IsComplexTail(w[m]))
  }

  /** `COMPLEX_MATH_PATTERN.search(w)` finds a match. */
  ghost predicate ComplexSearch(w: string)
  {
    exists i, j, k :: ComplexMatchAt(w, i, j, k)
  }

  /** The complex shape: a head character, a `_`, `^` or `{`, and a tail
      character, side by side. */
  predicate HasComplexShape(w: string)
  {
    exists j :: 1 <= j < |w| - 1 && IsComplexHead(w[j - 1]) && IsComplexMid(w[j]) && IsComplexTail(w[j + 1])
  }

  /** The search finds a match exactly when the three-character window
      occurs: every match contains one, and the window is itself a match. */
  lemma ComplexShapeIsSearch(w: string)
    ensures HasComplexShape(w) <==> ComplexSearch(w)
  {
    if HasComplexShape(w) {
      ComplexShapeMatches(w);
    }
    if ComplexSearch(w) {
      ComplexMatchHasShape(w);
    }
  }

  /** The window is a match of its own. */
  lemma ComplexShapeMatches(w: string)
    requires HasComplexShape(w)
    ensures ComplexSearch(w)
  {
    var j :| 1 <= j < |w| - 1 && IsComplexHead(w[j - 1]) && IsComplexMid(w[j]) && IsComplexTail(w[j + 1]);
    assert ComplexMatchAt(w, j - 1, j, j + 2);
  }

  /** Every match holds the window around its middle character. */
  lemma ComplexMatchHasShape(w: string)
    requires ComplexSearch(w)
    ensures HasComplexShape(w)
  {
    var i, j, k :| ComplexMatchAt(w, i, j, k);
    assert IsComplexHead(w[j - 1]) && IsComplexTail(w[j + 1]);
  }

  // ---- OPERATION_PATTERN:
  //   \b[a-zA-Z0-9]+\s*[\+\=\<\>]\s*[a-zA-Z0-9]+\b | \b[kxyzmn]\s*-\s*[0-9a-z]\b
  // A token holds no whitespace, so the `\s*` pieces match the empty string.

  /** A word character of `\b`; inside a token only ASCII can occur. */
  predicate IsWordChar(c: char)
  {
    IsAsciiAlnum(c) || c == '_'
  }

  /** `\b` at position `p` of `w`: a word character on exactly one side. */
  predicate WordBoundary(w: string, p: int)
    requires 0 <= p <= |w|
  {
    (p > 0 && IsWordChar(w[p - 1])) != (p < |w| && IsWordChar(w[p]))
  }

  predicate IsRelOp(c: char)
  {
    c in "+=<>"
  }

  predicate AllAlnum(w: string, i: int, k: int)
    requires 0 <= i <= k <= |w|
  {
    forall m :: i <= m < k ==> IsAsciiAlnum(w[m])
  }

  /** The first alternative matches `w[i..k]`, with its operator at `j`. */
  ghost predicate RelationMatchAt(w: string, i: int, j: int, k: int)
  {
    && 0 <= i < j && j + 1 < k <= |w|
    && AllAlnum(w, i, j) && IsRelOp(w[j]) && AllAlnum(w, j + 1, k)
    && WordBoundary(w, i) && WordBoundary(w, k)
  }

  /** The second alternative matches `w[j - 1..j + 2]`, with its `-` at `j`. */
  predicate StepMatchAt(w: string, j: int)
  {
    && 1 <= j < |w| - 1
    && w[j] == '-' && w[j - 1] in "kxyzmn" && (IsAsciiDigit(w[j + 1]) || 'a' <= w[j + 1] <= 'z')
    && WordBoundary(w, j - 1) && WordBoundary(w, j + 2)
  }

  /** `OPERATION_PATTERN.search(w)` finds a match, for a word without
      whitespace. */
  ghost predicate OperationSearch(w: string)
  {
    (exists i, j, k :: RelationMatchAt(w, i, j, k)) || (exists j :: StepMatchAt(w, j))
  }

  /** Where the run of alphanumerics that ends at `j` starts. */
  function AlnumRunStart(w: string, j: nat): (i: nat)
    requires j <= |w|
    ensures i <= j && AllAlnum(w, i, j) && (i == 0 || !IsAsciiAlnum(w[i - 1]))
  {
    if j > 0 && IsAsciiAlnum(w[j - 1]) then AlnumRunStart(w, j - 1) else j
  }

  /** Where the run of alphanumerics that starts at `j` ends. */
  function AlnumRunEnd(w: string, j: nat): (k: nat)
    requires j <= |w|
    ensures j <= k <= |w| && AllAlnum(w, j, k) && (k == |w| || !IsAsciiAlnum(w[k]))
    decreases |w| - j
  {
    if j < |w| && IsAsciiAlnum(w[j]) then AlnumRunEnd(w, j + 1) else j
  }

  /** An operator between alphanumerics, where the whole alphanumeric run on
      each side is bounded by `\b`. */
  predicate RelationAt(w: string, j: int)
  {
    && 0 < j < |w| - 1
    && IsRelOp(w[j]) && IsAsciiAlnum(w[j - 1]) && IsAsciiAlnum(w[j + 1])
    && WordBoundary(w, AlnumRunStart(w, j)) && WordBoundary(w, AlnumRunEnd(w, j + 1))
  }

  /** The operation shape, decided position by position. */
  predicate HasOperationShape(w: string)
  {
    (exists j :: 0 < j < |w| - 1 && RelationAt(w, j)) || (exists j :: 1 <= j < |w| - 1 && StepMatchAt(w, j))
  }

  /** A run of alphanumerics that `\b` bounds on the left is a whole run. */
  lemma BoundedRunStart(w: string, i: nat, j: nat)
    requires i < j <= |w| && AllAlnum(w, i, j) && WordBoundary(w, i)
    ensures AlnumRunStart(w, j) == i
    decreases j - i
  {
    if j - 1 > i {
      BoundedRunStart(w, i, j - 1);
    }
  }

  lemma BoundedRunEnd(w: string, j: nat, k: nat)
    requires j < k <= |w| && AllAlnum(w, j, k) && WordBoundary(w, k)
    ensures AlnumRunEnd(w, j) == k
    decreases k - j
  {
    if j + 1 < k {
      BoundedRunEnd(w, j + 1, k);
    }
  }

  /** The search of the operation pattern finds a match exactly when the
      operation shape is there. */
  lemma OperationShapeIsSearch(w: string)
    ensures HasOperationShape(w) <==> OperationSearch(w)
  {
    if exists j :: 0 < j < |w| - 1 && RelationAt(w, j) {
      var j :| 0 < j < |w| - 1 && RelationAt(w, j);
      var i, k := AlnumRunStart(w, j), AlnumRunEnd(w, j + 1);
      assert RelationMatchAt(w, i, j, k);
    }
    if exists i, j, k :: RelationMatchAt(w, i, j, k) {
      var i, j, k :| RelationMatchAt(w, i, j, k);
      BoundedRunStart(w, i, j);
      BoundedRunEnd(w, j + 1, k);
      assert RelationAt(w, j);
    }
  }

  // ---- replace_func

  /** The classification: complex shape, else operation shape, else a math
      variable that is not a stop word. */
  predicate IsMath(w: string)
  {
    || HasComplexShape(w)
    || HasOperationShape(w)
    || (w in MathVars && w !in EnglishStopwords)
  }

  /** The double-wrapping guard: the word already holds a marker or a `$`. */
  predicate IsGuarded(w: string)
  {
    Contains(w, MarkerStart) || '$' in w
  }

  /** `replace_func` on the matched word `w`. */
  function ReplaceToken(w: string): string
  {
    if IsGuarded(w) then w
    else if IsMath(w) then MarkerStart + "$" + Strip(w) + "$" + MarkerEnd
    else w
  }

  /** A token is math exactly when one of the two searches succeeds or it is
      a math variable that is not a stop word; the stop-word veto applies
      to the membership test alone. */
  lemma ClassifierRule(w: string)
    ensures IsMath(w) <==>
      ComplexSearch(w) || OperationSearch(w) || (w in MathVars && w !in EnglishStopwords)
  {
    ComplexShapeIsSearch(w);
    OperationShapeIsSearch(w);
  }

  /** No character of a token is whitespace. */
  lemma TokenIsTight(w: string)
    requires IsToken(w)
    ensures Tight(w) && Strip(w) == w
  {
    StripFixesTight(w);
  }

  /** The guard and the wrap: a token is changed exactly when it is math
      and unguarded, and then it becomes `==$`, the token, `$==`. */
  lemma ReplaceTokenWraps(w: string)
    requires IsToken(w)
    ensures ReplaceToken(w) != w <==> !IsGuarded(w) && IsMath(w)
    ensures ReplaceToken(w) != w ==> ReplaceToken(w) == "==$" + w + "$=="
  {
    TokenIsTight(w);
    if !IsGuarded(w) && IsMath(w) {
      var r := ReplaceToken(w);
      assert r[2] == '$';
      assert '$' in r;
    }
  }

  /** A `$` can never be part of a token, so that half of the guard never
      fires on what the highlighter passes in. */
  lemma TokenHasNoDollar(w: string)
    requires IsToken(w)
    ensures '$' !in w
  {
  }

  /** A token character is none of the characters that delimit or
      pad a formula. */
  lemma TokenCharIsPlain(c: char)
    requires IsTokenChar(c)
    ensures c != '$' && c != '`' && c != '\n' && !IsSpace(c)
  {
    if !IsAsciiAlnum(c) {
      assert c in "_\\^{}-+=<>";
    }
  }

  lemma TokenIsPlain(w: string)
    requires IsToken(w)
    ensures forall i :: 0 <= i < |w| ==> w[i] != '$' && w[i] != '`' && w[i] != '\n'
  {
    forall i | 0 <= i < |w|
      ensures w[i] != '$' && w[i] != '`' && w[i] != '\n'
    {
      TokenCharIsPlain(w[i]);
    }
  }

  /** `x`, `x_1`, `k-1` and `a=b` are math. */
  lemma MathExamples()
    ensures IsMath("x") && IsMath("x_1") && IsMath("k-1") && IsMath("a=b")
  {
    assert "x" in MathVars && "x" !in EnglishStopwords;
    var c := "x_1";
    assert IsComplexHead(c[0]) && IsComplexMid(c[1]) && IsComplexTail(c[2]);
    var s := "k-1";
    assert StepMatchAt(s, 1);
    var r := "a=b";
    assert AlnumRunStart(r, 1) == 0 && AlnumRunEnd(r, 2) == 3;
    assert RelationAt(r, 1);
  }

  /** A math token that holds the marker is guarded: `x_1==2` has the
      complex shape, yet `replace_func` returns it as it is. */
  lemma GuardedMathToken(w: string)
    requires w == "x_1==2"
    ensures IsMath(w) && IsGuarded(w) && ReplaceToken(w) == w
  {
    assert IsComplexHead(w[0]) && IsComplexMid(w[1]) && IsComplexTail(w[2]);
    assert OccursAt(w, MarkerStart, 3);
  }

  /** A word made of ASCII letters alone has neither shape. */
  lemma LettersHaveNoShape(w: string)
    requires forall i :: 0 <= i < |w| ==> IsAsciiLetter(w[i])
    ensures !HasComplexShape(w) && !HasOperationShape(w)
  {
    forall j | 0 <= j < |w|
      ensures !IsComplexMid(w[j]) && !IsRelOp(w[j]) && w[j] != '-'
    {
      assert IsAsciiLetter(w[j]);
    }
  }

  /** `I` is vetoed as a stop word; `slam`, `matrix` and `in` are plain
      words. */
  lemma PlainWordExamples()
    ensures !IsMath("I") && !IsMath("slam") && !IsMath("matrix") && !IsMath("in")
  {
    LettersHaveNoShape("I");
    LettersHaveNoShape("slam");
    LettersHaveNoShape("matrix");
    LettersHaveNoShape("in");
    assert "I" in EnglishStopwords;
    assert "slam" !in MathVars;
    assert "matrix" !in MathVars;
    assert "in" in EnglishStopwords;
  }

  /** A word of ASCII letters that is not a math name, or is vetoed as a
      stop word, is left as it is. */
  lemma WordIsKept(w: string)
    requires |w| > 0 && forall i :: 0 <= i < |w| ==> IsAsciiLetter(w[i])
    requires w !in MathVars || w in EnglishStopwords
    ensures IsToken(w) && ReplaceToken(w) == w
  {
    LettersHaveNoShape(w);
  }

  /** A math token free of `=` is wrapped in the markers. */
  lemma MathTokenIsMarked(w: string)
    requires IsToken(w) && IsMath(w) && forall i :: 0 <= i < |w| ==> w[i] != '='
    ensures ReplaceToken(w) == "==$" + w + "$=="
  {
    TokenHasNoDollar(w);
    forall k | 0 <= k <= |w| - 2
      ensures !OccursAt(w, MarkerStart, k)
    {
      assert w[k..k + 2][0] == w[k];
    }
    ReplaceTokenWraps(w);
  }
}
