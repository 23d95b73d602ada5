# md_math_fixer in Dafny

`md_math_fixer.py` marks up mathematics in Markdown prose. It has three modes:

- **highlight** (`apply_highlight`) finds words that look like formulas, such as `k-1`, `x_1`, `a=b` or a lone `x`. It wraps each as `==$word$==`: inline math inside a highlight mark.
- **clean** (`remove_highlight`) drops the `==` marks and keeps the `$…$`.
- **undo** (`undo_changes`) drops the marks and the dollars both, giving back the original word.

Highlight and clean finish by tightening every inline-math span, so `$ x $` becomes `$x$`. Text inside protected regions is never touched by the word scan. There are four kinds of protected region: fenced code, inline code, `$$…$$` display math and `$…$` inline math.

This project is a functional model of that engine over `string` (`seq<char>`). Each fixed regular expression is written out by hand as a recognizer with Python `re` semantics:

- the leftmost match wins;
- alternatives are tried in order;
- a lazy quantifier takes the shortest close;
- a greedy one takes the longest run.

Each recognizer is proved equal to an independent description of the language it matches. On top of that sit the properties the tool promises: the partition is lossless and unique, normalisation touches inline math only, the classifier rule holds, the scan rewrites whole tokens, and undo inverts highlight.

Modules, one per file:

| module | file | models |
|---|---|---|
| `Text` | text.dfy | `"".join`, `str.strip()`, whitespace, substring tests |
| `Scan` | scan.dfy | `re.split` and `re.sub` for a pattern that never matches the empty string and whose match at a position depends only on the text from that position on |
| `Partition` | partition.dfy | `PROTECT_PATTERN` and its split |
| `Normalize` | normalize.dfy | `normalize_inline_math` |
| `Classifier` | classifier.dfy | `MATH_VARS`, `ENGLISH_STOPWORDS`, `COMPLEX_MATH_PATTERN`, `OPERATION_PATTERN`, `replace_func` |
| `Highlight` | highlight.dfy | the token pattern, its substitution, `apply_highlight` |
| `Markers` | markers.dfy | `remove_highlight`, `undo_changes` |
| `Laws` | laws.dfy | how the three modes relate on prose |
| `Examples` | examples.dfy | sample sentences, worked through |

A matcher is a function `string -> Option<nat>`. It reports the length of the match that the pattern finds at the start of its argument, or `None`. `Scan.SplitBy` and `Scan.SubBy` drive a matcher across a text as `re.split` with one capturing group and `re.sub` do, for a pattern whose match at a position depends only on the text from that position on. A matcher cannot see the text before the cursor, so it cannot stand for a lookbehind, `\b` or `^`. None of the four patterns scanned here (the protecting pattern, the token pattern and the two marker patterns) uses such a construct. Plain text lands at even indices of the split and matches at odd ones.

## Model

| member | source | states |
|---|---|---|
| `Partition.LazyBlockLenIsShortest` | md_math_fixer.py:42 | a fenced block or `$$…$$` run ends at the first closing delimiter after the opening one; when none closes, no prefix of the text is such a block |
| `Partition.DelimitedLenIsUnique` | md_math_fixer.py:42 | inline code and inline math match exactly the delimiter, a non-empty run free of that delimiter and of newlines, and the delimiter again |
| `Partition.ProtectedPrefixIsFirstAlternative` | md_math_fixer.py:42 | the reported match is one the pattern can make there, and every alternative that could fire ranks no earlier than it: fence, then inline code, then display math, then inline math |
| `Partition.InlineTestMatchesKind` | md_math_fixer.py:63 | a protected part is inline math exactly when it starts with `$` and not `$$` |
| `Partition.SplitPartitions` | md_math_fixer.py:56 | the parts join back to the text, and the odd parts are the leftmost matches with no match starting inside plain text |
| `Partition.SplitIsUnique` | md_math_fixer.py:56 | any partition with those properties is the split |
| `Partition.SplitWithoutDelimiters` | md_math_fixer.py:56 | a text without backtick or dollar is one plain part |
| `Partition.DisplayMathIsOneSpan` | md_math_fixer.py:37-42 | `$$a$$` is one display span, never two inline ones |
| `Scan.SplitJoin` | md_math_fixer.py:56 | joining a split gives back the text, for any matcher |
| `Scan.PartitionUnique` | md_math_fixer.py:56 | the split is the only partition into leftmost matches and plain text |
| `Scan.SubIsMappedSplit` | md_math_fixer.py:113 | a substitution equals the join of the split with every match replaced |
| `Scan.SubAppend` | md_math_fixer.py:113 | substitution distributes over a cut that no match straddles |
| `Text.StripIsStripOf` | md_math_fixer.py:65 | `strip()` removes leading and trailing whitespace and nothing else: what is left is empty or starts and ends with non-space |
| `Text.StripUnique` | md_math_fixer.py:65 | the strip is the only window of the text with that property |
| `Text.StripFixesTight` | md_math_fixer.py:65 | strip changes a string exactly when it starts or ends with whitespace |
| `Text.StripKeepsInk` | md_math_fixer.py:65 | strip removes no non-space character |
| `Normalize.NormalizePartRewritesInlineOnly` | md_math_fixer.py:59-72 | code, display math and plain text are copied; an inline-math part becomes `$`, its stripped interior, `$` |
| `Normalize.NormalizeIsSub` | md_math_fixer.py:56-74 | normalisation is a substitution driven by the protecting pattern |
| `Normalize.NormalizeFixesTightText` | md_math_fixer.py:50-74 | the output is never longer than the input, and the text is unchanged exactly when every inline-math part of its split is tight |
| `Normalize.NormalizeWithoutInlineMath` | md_math_fixer.py:67-72 | a text whose split has no inline-math part comes back unchanged |
| `Normalize.NormalizeKeepsInk` | md_math_fixer.py:50-74 | normalisation removes only whitespace |
| `Normalize.NormalizeSkipPlain` | md_math_fixer.py:56-74 | text without backtick or dollar in front passes through unchanged |
| `Normalize.NormalizeInlineSpan` | md_math_fixer.py:63-66 | a leading inline-math span is tightened and the rest is normalised independently |
| `Normalize.NormalizeExample` | md_math_fixer.py:11 | `$ x $` becomes `$x$` |
| `Normalize.NormalizeNotIdempotent` | md_math_fixer.py:50-74 | `$ $ x$` becomes `$$ x$`, which a second pass turns into `$$x$` |
| `Classifier.ComplexShapeIsSearch` | md_math_fixer.py:45 | the hand-coded test agrees with a search for head run, one of `_^{`, tail run anywhere in the token |
| `Classifier.OperationShapeIsSearch` | md_math_fixer.py:48 | the hand-coded test agrees with a search for either alternative, `\b` boundaries included |
| `Classifier.ClassifierRule` | md_math_fixer.py:97-104 | a token is math exactly when the complex search or the operation search succeeds, or it is in `MATH_VARS` and not in `ENGLISH_STOPWORDS` |
| `Classifier.ReplaceTokenWraps` | md_math_fixer.py:93-110 | a token changes exactly when it is unguarded and math, and then it becomes `==$` token `$==` |
| `Classifier.TokenIsTight` | md_math_fixer.py:108 | `word.strip()` leaves a token as it is |
| `Classifier.TokenHasNoDollar` | md_math_fixer.py:94 | no token holds `$`, so that half of the guard never fires |
| `Classifier.MathExamples` | md_math_fixer.py:17-48 | `x`, `x_1`, `k-1` and `a=b` are math |
| `Classifier.PlainWordExamples` | md_math_fixer.py:17-29 | `I`, `slam`, `matrix` and `in` are not |
| `Classifier.WordIsKept` | md_math_fixer.py:103-110 | a word of letters that is no math variable, or is a stop word, is returned unchanged |
| `Classifier.MathTokenIsMarked` | md_math_fixer.py:106-108 | a math token without `=` is wrapped |
| `Classifier.GuardedMathToken` | md_math_fixer.py:93-95 | `x_1==2` is math by the complex shape, yet the marker guard returns it unchanged |
| `Highlight.TokenMatchIsMaximalToken` | md_math_fixer.py:112 | the token pattern matches exactly the maximal run of token characters |
| `Highlight.TokenScanShape` | md_math_fixer.py:112-113 | the token scan cuts a plain part at the leftmost matches of the greedy token pattern into tokens and runs free of token characters; no two tokens are side by side, so each token is maximal; the rewrite replaces each token by `replace_func` of it |
| `Highlight.TokensApart` | md_math_fixer.py:112-113 | every plain part strictly between two tokens of the scan is non-empty: the greedy `+` leaves no token character right after a token |
| `Highlight.RewriteWithoutTokens` | md_math_fixer.py:112-113 | a part without token characters is unchanged |
| `Highlight.RewriteSeparated` | md_math_fixer.py:112-113 | words between separators are each handed to the replacement whole |
| `Highlight.RewriteCut` | md_math_fixer.py:112-113 | the rewrite splits at any character outside the token alphabet |
| `Highlight.HighlightPartsAt` | md_math_fixer.py:82-114 | protected parts are copied and plain parts are token-rewritten |
| `Highlight.HighlightPlainText` | md_math_fixer.py:76-118 | on text without protected regions, highlighting is the token rewrite followed by normalisation |
| `Markers.CleanLenIsUnique` | md_math_fixer.py:126 | the clean pattern matches exactly `==$`, at least one non-dollar character, `$==`; newlines are allowed |
| `Markers.UndoLenIsShortest` | md_math_fixer.py:137 | the undo pattern matches the shortest `==$…$==` without a newline, and none when no prefix matches |
| `Markers.UnmarkedTextIsKept` | md_math_fixer.py:126-138 | text without `==$` passes both rewrites unchanged |
| `Markers.MarkSkipRun` | md_math_fixer.py:126-138 | text without `=` in front is copied by either rewrite |
| `Markers.CleanMarked` | md_math_fixer.py:126-127 | a mark around a dollar-free word becomes `$word$` |
| `Markers.UndoMarked` | md_math_fixer.py:137-138 | a mark around a word without dollar or newline becomes the word |
| `Laws.UndoRewritten` | md_math_fixer.py:112-138 | undoing the token rewrite of dollar-free text gives the text back |
| `Laws.CleanRewritten` | md_math_fixer.py:112-127 | cleaning the token rewrite of dollar-free text leaves every token that `replace_func` wraps (a math token without `==`) as `$token$` and everything else as it was |
| `Laws.RewrittenIsNormal` | md_math_fixer.py:116-118 | on text without backtick or dollar, the final normalisation of highlight changes nothing, nor does the one of clean |
| `Laws.HighlightPlainProse` | md_math_fixer.py:76-118 | on such text, highlighting is the token rewrite alone |
| `Laws.UndoAfterHighlight` | md_math_fixer.py:132-138 | undo after highlight gives back any text without `$` and backtick |
| `Laws.CleanAfterHighlight` | md_math_fixer.py:120-130 | clean after highlight leaves such text with every token that `replace_func` wraps as inline math and everything else as it was |
| `Examples.CleanSentence` | md_math_fixer.py:120-130 | a sentence with one mark cleans to the same sentence with `$word$` |
| `Examples.UndoSentence` | md_math_fixer.py:132-138 | the same sentence undoes to the bare word |
| `Examples.MarkedSentenceExample` | md_math_fixer.py:120-138 | `Then ==$k-1$== terms remain.` cleans to `Then $k-1$ terms remain.` and undoes to `Then k-1 terms remain.` |
| `Examples.LooseMarkIsKept` | md_math_fixer.py:120-130 | `== $x$==` is no mark and is cleaned to itself |
| `Examples.HighlightExample` | md_math_fixer.py:76-118 | `Let $ x $ be given. Then k-1 terms remain. We use slam filtering.` highlights to `Let $x$ be given. Then ==$k-1$== terms remain. We use slam filtering.` |

## Left out

- `main` (md_math_fixer.py:140-176) is left out. It does argument parsing, the file-existence check, UTF-8 reading and writing, and status prints; this is I/O.
- Python's `re` engine itself is not modelled. Each of the six fixed patterns is hand-coded and proved against its own description.
- `IsSpace` is a concrete predicate: the code points for which Python's `str.isspace()` holds. This is the set `strip()` removes. It is not an abstract predicate, so the strip examples can be evaluated.
- Idempotence of `normalize_inline_math` does not hold; `Normalize.NormalizeNotIdempotent` exhibits the input.
- No property states that code spans are byte-identical in the final output of `apply_highlight`. The code copies the protected parts of the first split only (md_math_fixer.py:86-88). The final normalisation re-splits a text whose dollars have changed, so a span of the first split need not be a span of the second.
- `Laws.UndoAfterHighlight` is stated for text with no `$` and no backtick. That is the inverse law the undo mode's docstring states (md_math_fixer.py:133-135); with protected regions the final re-split can regroup dollars.
- `Laws.CleanAfterHighlight`, `Laws.HighlightPlainProse` and `Laws.RewrittenIsNormal` are likewise stated only for text with no `$` and no backtick.
- `Highlight.HighlightPlainText` is stated only for text without protected regions. For text with them, `Highlight.HighlightPartsAt` describes the parts before the final normalisation.
- The `"$" in word` half of the guard is modelled but never fires on a token. `Classifier.TokenHasNoDollar` shows why.
- `Markers.CleanGroup` and `Markers.UndoGroup` return their argument unchanged when it is too short to be a match. The substitution never passes them such a string.
