/** `normalize_inline_math`: strip the whitespace just inside every inline
    math span `$ … $`, and leave everything else alone.

    The text is split with the protecting pattern; a protected part that
    starts with `$` but not with `$$` is inline math and becomes `$`, its
    interior stripped, `$`; every other part, plain or protected, is copied. */
module Normalize {
  import opened Text
  import opened Scan
  import opened Partition

  /** The normalizer's test on a protected part: it starts with `$` and not
      with `$$`. */
  predicate IsInlinePart(p: string)
  {
    |p| > 0 && p[0] == '$' && !(|p| > 1 && p[1] == '$')
  }

  /** Python's `p[1:-1]`: everything but the first and the last character. */
  function Interior(p: string): string
  {
    if |p| <= 2 then "" else p[1..|p| - 1]
  }

  /** One part, rewritten as the loop body does it. */
  function NormalizePart(p: string): string
  {
    if IsInlinePart(p) then "$" + Strip(Interior(p)) + "$" else p
  }

  /** Only an inline-math part is rewritten, and it becomes `$`, its interior
      with the surrounding whitespace cut off and nothing else, `$`. */
  lemma NormalizePartRewritesInlineOnly(p: string)
    ensures !IsInlinePart(p) ==> NormalizePart(p) == p
    ensures IsInlinePart(p) ==>
      var r := NormalizePart(p);
      |r| >= 2 && r[0] == '$' && r[|r| - 1] == '$' && IsStripOf(Interior(p), r[1..|r| - 1])
  {
    if IsInlinePart(p) {
      var r := NormalizePart(p);
      assert r[1..|r| - 1] == Strip(Interior(p));
      StripIsStripOf(Interior(p));
    }
  }

  /** `normalize_inline_math(text)`: the parts at odd indices are rewritten,
      those at even indices copied, and the result joined. */
  function NormalizeInlineMath(text: string): string
  {
    Concat(MapOdd(NormalizePart, Split(text)))
  }

  /** The shape of the protected parts the normalizer can be handed: at
      least three characters, and an inline-math part is `$`, characters
      other than `$` and newline, `$`. */
  predicate SpanShape(p: string)
  {
    |p| >= 3 && (IsInlinePart(p) ==> IsDelimited(p, '$'))
  }

  lemma MatchesHaveSpanShape()
    ensures Advances(MatchLen)
    ensures forall t :: MatchLen(t).Some? ==> SpanShape(t[..MatchLen(t).value])
  {
    MatchLenAdvances();
    forall t | MatchLen(t).Some?
      ensures SpanShape(t[..MatchLen(t).value])
    {
      var p := t[..MatchLen(t).value];
      if IsInlinePart(p) {
        assert t[0] == p[0] && t[1] == p[1];
        InlineMatchShape(t);
      }
    }
  }

  /** Every protected part of the split has the span shape. */
  lemma SplitPartsHaveSpanShape(text: string)
    ensures OddPartsSatisfy(SpanShape, Split(text))
  {
    MatchesHaveSpanShape();
    SplitMatchesSatisfy(MatchLen, SpanShape, text);
  }

  /** The rewrite leaves `p` as it is. */
  predicate IsFixed(p: string)
  {
    NormalizePart(p) == p
  }

  /** `p` is not inline math, or its interior has no whitespace to cut. */
  predicate InlineTight(p: string)
  {
    IsInlinePart(p) ==> Tight(Interior(p))
  }

  /** On a span-shaped part, rewriting never lengthens, and it leaves the
      part alone exactly when the part is not inline math or its interior is
      already tight. */
  lemma NormalizePartFixes(p: string)
    requires SpanShape(p)
    ensures |NormalizePart(p)| <= |p|
    ensures IsFixed(p) <==> InlineTight(p)
  {
    if IsInlinePart(p) {
      var w := Interior(p);
      assert |p| == |w| + 2;
      StripFixesTight(w);
      assert IsFixed(p) ==> Strip(w) == w by {
        if IsFixed(p) {
          assert NormalizePart(p)[1..|p| - 1] == Strip(w);
          assert p[1..|p| - 1] == w;
        }
      }
    }
  }

  /** `MapOdd` peels off two parts at a time. */
  lemma MapOddCons2(f: string -> string, parts: seq<string>)
    requires |parts| >= 2
    ensures Concat(MapOdd(f, parts)) == parts[0] + f(parts[1]) + Concat(MapOdd(f, parts[2..]))
  {
    ConcatCons2(MapOdd(f, parts));
  }

  /** Of two joins that agree, with each piece of the first no longer than
      its partner, the pieces agree too. */
  lemma AppendCancel(a: string, b: string, c: string, d: string)
    requires |a| <= |c| && |b| <= |d| && a + b == c + d
    ensures a == c && b == d
  {
    assert a == (a + b)[..|a|];
    assert c == (c + d)[..|c|];
    assert b == (a + b)[|a|..];
    assert d == (c + d)[|c|..];
  }

  /** Joined rewritten parts are no longer than the joined parts, and equal
      to them exactly when every protected part is left unchanged. */
  lemma {:induction false} NormalizePartsFix(parts: seq<string>)
    requires |parts| % 2 == 1 && OddPartsSatisfy(SpanShape, parts)
    ensures |Concat(MapOdd(NormalizePart, parts))| <= |Concat(parts)|
    ensures Concat(MapOdd(NormalizePart, parts)) == Concat(parts) <==> OddPartsSatisfy(IsFixed, parts)
    ensures OddPartsSatisfy(IsFixed, parts) <==> OddPartsSatisfy(InlineTight, parts)
    decreases |parts|
  {
    if |parts| == 1 {
      assert Concat(parts) == parts[0];
    } else {
      var rest := parts[2..];
      NormalizePartsFix(rest);
      MapOddCons2(NormalizePart, parts);
      ConcatCons2(parts);
      NormalizePartFixes(parts[1]);
      var a, b := NormalizePart(parts[1]), Concat(MapOdd(NormalizePart, rest));
      assert parts[0] + a + b == parts[0] + (a + b);
      assert parts[0] + parts[1] + Concat(rest) == parts[0] + (parts[1] + Concat(rest));
      if parts[0] + (a + b) == parts[0] + (parts[1] + Concat(rest)) {
        AppendCancel(parts[0], a + b, parts[0], parts[1] + Concat(rest));
        AppendCancel(a, b, parts[1], Concat(rest));
      }
    }
  }

  /** The normalizer never lengthens the text, and it returns the text
      unchanged exactly when the interior of every inline-math part is
      already tight: plain text, code and display math never change. */
  lemma NormalizeFixesTightText(text: string)
    ensures |NormalizeInlineMath(text)| <= |text|
    ensures NormalizeInlineMath(text) == text <==>
      forall i :: 0 <= i < |Split(text)| && i % 2 == 1 ==> InlineTight(Split(text)[i])
  {
    SplitPartsHaveSpanShape(text);
    SplitPartitions(text);
    NormalizePartsFix(Split(text));
    OddPartsSatisfyAt(InlineTight, Split(text));
  }

  /** A text without any inline-math part comes back unchanged. */
  lemma NormalizeWithoutInlineMath(text: string)
    requires forall i :: 0 <= i < |Split(text)| && i % 2 == 1 ==> !IsInlinePart(Split(text)[i])
    ensures NormalizeInlineMath(text) == text
  {
    NormalizeFixesTightText(text);
  }

  lemma {:induction false} InkOfParts(parts: seq<string>)
    requires |parts| % 2 == 1 && OddPartsSatisfy(SpanShape, parts)
    ensures Ink(Concat(MapOdd(NormalizePart, parts))) == Ink(Concat(parts))
    decreases |parts|
  {
    if |parts| == 1 {
      assert MapOdd(NormalizePart, parts) == parts;
    } else {
      var rest := parts[2..];
      InkOfParts(rest);
      MapOddCons2(NormalizePart, parts);
      ConcatCons2(parts);
      NormalizePartKeepsInk(parts[1]);
      var a, b := NormalizePart(parts[1]), Concat(MapOdd(NormalizePart, rest));
      InkAppend(parts[0] + a, b);
      InkAppend(parts[0], a);
      InkAppend(parts[0] + parts[1], Concat(rest));
      InkAppend(parts[0], parts[1]);
    }
  }

  lemma NormalizePartKeepsInk(p: string)
    requires SpanShape(p)
    ensures Ink(NormalizePart(p)) == Ink(p)
  {
    if IsInlinePart(p) {
      var w := Interior(p);
      assert p == "$" + w + "$";
      StripKeepsInk(w);
      InkAppend("$" + w, "$");
      InkAppend("$", w);
      InkAppend("$" + Strip(w), "$");
      InkAppend("$", Strip(w));
    }
  }

  /** Normalizing removes only whitespace: the non-space characters of the
      text survive, in order. */
  lemma NormalizeKeepsInk(text: string)
    ensures Ink(NormalizeInlineMath(text)) == Ink(text)
  {
    SplitPartsHaveSpanShape(text);
    SplitPartitions(text);
    InkOfParts(Split(text));
  }

  /** The normalizer is a `re.sub` with the protecting pattern. */
  lemma NormalizeIsSub(text: string)
    ensures Advances(MatchLen)
    ensures NormalizeInlineMath(text) == SubBy(MatchLen, NormalizePart, text)
  {
    MatchLenAdvances();
    SubIsMappedSplit(MatchLen, NormalizePart, text);
  }

  /** No match at the start: the first character is copied. */
  lemma NormalizeSkipChar(s: string)
    requires |s| > 0 && MatchLen(s).None?
    ensures NormalizeInlineMath(s) == [s[0]] + NormalizeInlineMath(s[1..])
  {
    NormalizeIsSub(s);
    NormalizeIsSub(s[1..]);
  }

  /** A character other than a backtick or a dollar never starts a match. */
  lemma NoMatchAtPlainChar(s: string)
    requires |s| > 0 && s[0] != '`' && s[0] != '$'
    ensures MatchLen(s).None?
  {
  }

  /** Text without backticks and dollars in front of `b` is copied. */
  lemma {:induction false} NormalizeSkipPlain(a: string, b: string)
    requires forall i :: 0 <= i < |a| ==> a[i] != '`' && a[i] != '$'
    ensures NormalizeInlineMath(a + b) == a + NormalizeInlineMath(b)
    decreases |a|
  {
    if |a| == 0 {
      assert a + b == b;
    } else {
      NoMatchAtPlainChar(a + b);
      NormalizeSkipChar(a + b);
      assert (a + b)[1..] == a[1..] + b;
      NormalizeSkipPlain(a[1..], b);
      assert a == [a[0]] + a[1..];
    }
  }

  /** An inline span `$w$` at the start is the match there. */
  lemma InlineSpanMatches(w: string, b: string)
    requires |w| > 0 && forall i :: 0 <= i < |w| ==> w[i] != '$' && w[i] != '\n'
    ensures MatchLen("$" + w + "$" + b) == Some(|w| + 2)
  {
    var s := "$" + w + "$" + b;
    assert s[0] == '$' && s[1] == w[0] && s[|w| + 1] == '$';
    assert !OccursAt(s, Fence, 0) && !OccursAt(s, DisplayDelim, 0);
    assert DelimitedLen(s, '`').None?;
    forall i | 1 <= i <= |w|
      ensures s[i] == w[i - 1]
    {
    }
    RunWithoutIsMaximal(s, '$', 1);
    assert RunWithout(s, '$', 1) == |w| + 1;
  }

  predicate NotDelimiter(c: char)
  {
    c != '`' && c != '$'
  }

  /** Text without backticks and dollars joins the first plain part. */
  lemma SplitSkipPlain(a: string, y: string)
    requires forall i :: 0 <= i < |a| ==> a[i] != '`' && a[i] != '$'
    ensures |Split(y)| > 0 && Split(a + y) == PrependFirst(a, Split(y))
  {
    MatchLenAdvances();
    forall t | |t| > 0 && NotDelimiter(t[0])
      ensures MatchLen(t).None?
    {
      NoMatchAtPlainChar(t);
    }
    SplitSkipRun(MatchLen, NotDelimiter, a, y);
  }

  /** An inline span `$w$` at the start is one protected part. */
  lemma SplitInlineSpan(w: string, b: string)
    requires |w| > 0 && forall i :: 0 <= i < |w| ==> w[i] != '$' && w[i] != '\n'
    ensures Split("$" + w + "$" + b) == ["", "$" + w + "$"] + Split(b)
  {
    MatchLenAdvances();
    InlineSpanMatches(w, b);
    assert "$" + w + "$" + b == ("$" + w + "$") + b;
    SplitMatchFirst(MatchLen, "$" + w + "$", b);
  }

  /** An inline span `$w$` at the start is rewritten to `$`, `w` stripped,
      `$`; the scan goes on after it. */
  lemma NormalizeInlineSpan(w: string, b: string)
    requires |w| > 0 && forall i :: 0 <= i < |w| ==> w[i] != '$' && w[i] != '\n'
    ensures NormalizeInlineMath("$" + w + "$" + b) == "$" + Strip(w) + "$" + NormalizeInlineMath(b)
  {
    var s := "$" + w + "$" + b;
    InlineSpanMatches(w, b);
    NormalizeIsSub(s);
    NormalizeIsSub(b);
    assert s[..|w| + 2] == "$" + w + "$";
    assert s[|w| + 2..] == b;
    assert Interior("$" + w + "$") == w;
  }

  /** An inline span `$w$` on its own becomes `$`, `w` stripped, `$`. */
  lemma NormalizeLoneSpan(w: string)
    requires |w| > 0 && forall i :: 0 <= i < |w| ==> w[i] != '$' && w[i] != '\n'
    ensures NormalizeInlineMath("$" + w + "$") == "$" + Strip(w) + "$"
  {
    NormalizeInlineSpan(w, "");
    NormalizeIsSub("");
    assert "$" + w + "$" + "" == "$" + w + "$";
  }

  lemma NormalizeExampleAt(w: string)
    requires w == " x "
    ensures NormalizeInlineMath("$" + w + "$") == "$x$"
  {
    NormalizeLoneSpan(w);
    assert w == " " + "x" + " ";
    StripPadded(" ", "x", " ");
  }

  /** The example from the tool's change log: `$ x $` becomes `$x$`. */
  lemma NormalizeExample()
    ensures NormalizeInlineMath("$ x $") == "$x$"
  {
    NormalizeExampleAt(" x ");
    assert "$" + " x " + "$" == "$ x $";
  }

  /** A lone dollar is plain text. */
  lemma NormalizeLoneDollar(s: string)
    requires s == "$"
    ensures NormalizeInlineMath(s) == s
  {
    assert MatchLen(s).None?;
    NormalizeSkipChar(s);
    NormalizeIsSub(s[1..]);
  }

  lemma NormalizeFirstPass(w: string, b: string)
    requires w == " " && b == " x$"
    ensures NormalizeInlineMath("$" + w + "$" + b) == "$$ x$"
  {
    NormalizeInlineSpan(w, b);
    assert w == " " + "" + "";
    StripPadded(" ", "", "");
    NormalizeSkipPlain(" x", "$");
    assert " x" + "$" == b;
    NormalizeLoneDollar("$");
  }

  lemma NormalizeSecondPass(s: string)
    requires s == "$$ x$"
    ensures NormalizeInlineMath(s) == "$$x$"
  {
    assert |s| == 5 && s[0] == '$' && s[1] == '$' && s[2] == ' ' && s[3] == 'x' && s[4] == '$';
    assert s[0..3][0] == s[0] && s[0..2] == DisplayDelim;
    assert s[2..4][0] == s[2] && s[3..5][0] == s[3];
    FindFromIsFirst(s, DisplayDelim, 2);
    assert LazyBlockLen(s, DisplayDelim).None?;
    assert RunWithout(s, '$', 1) == 1;
    assert MatchLen(s).None?;
    NormalizeSkipChar(s);
    assert s[1..] == "$" + " x" + "$";
    NormalizeLoneSpan(" x");
    assert " x" == " " + "x" + "";
    StripPadded(" ", "x", "");
  }

  /** Normalizing is not idempotent: in `$ $ x$` the first match is `$ $`,
      whose blank interior collapses to `$$`, and the next pass then sees
      the inline span `$ x$`. */
  lemma NormalizeNotIdempotent()
    ensures NormalizeInlineMath("$ $ x$") == "$$ x$"
    ensures NormalizeInlineMath("$$ x$") == "$$x$"
  {
    NormalizeFirstPass(" ", " x$");
    assert "$" + " " + "$" + " x$" == "$ $ x$";
    NormalizeSecondPass("$$ x$");
  }
}
