/** Strings as `seq<char>`: Python's `"".join`, `str.strip()` and the
    whitespace set that `str.strip()` removes. */
module Text {

  datatype Option<T> = None | Some(value: T)

  /** Python's `str.isspace()` on one code point: the characters that
      `str.strip()` with no argument removes. */
  predicate IsSpace(c: char)
  {
    var n := c as int;
    || 0x09 <= n <= 0x0D
    || 0x1C <= n <= 0x20
    || n == 0x85 || n == 0xA0 || n == 0x1680
    || 0x2000 <= n <= 0x200A
    || n == 0x2028 || n == 0x2029 || n == 0x202F || n == 0x205F || n == 0x3000
  }

  predicate AllSpace(s: string)
  {
    forall i :: 0 <= i < |s| ==> IsSpace(s[i])
  }

  /** True when `s` neither starts nor ends with whitespace. */
  predicate Tight(s: string)
  {
    |s| > 0 ==> !IsSpace(s[0]) && !IsSpace(s[|s| - 1])
  }

  /** `pat` occurs in `s` at position `k`. */
  predicate OccursAt(s: string, pat: string, k: int)
  {
    0 <= k && k + |pat| <= |s| && s[k..k + |pat|] == pat
  }

  /** Python's `pat in s`. */
  predicate Contains(s: string, pat: string)
  {
    exists k :: 0 <= k <= |s| - |pat| && OccursAt(s, pat, k)
  }

  /** Cutting a string and joining the pieces gives it back. */
  lemma Recombine(s: string, n: nat)
    requires n <= |s|
    ensures s[..n] + s[n..] == s
    ensures n == 1 ==> [s[0]] + s[1..] == s
  {
  }

  /** Taking the first character off a join. */
  lemma JoinHead(a: string, y: string)
    requires |a| > 0
    ensures (a + y)[0] == a[0] && (a + y)[1..] == a[1..] + y
    ensures [a[0]] + (a[1..] + y) == a + y
  {
    Recombine(a, 1);
  }

  /** Re-bracketing a chain of joins, stated once so that callers need not
      reason about the joined strings' characters. */
  lemma Regroup(a: string, x: string, y: string, z: string, u: string)
    ensures a + x + y + z + u == a + (x + y + z + u)
    ensures a + x + y + z == a + (x + y + z)
  {
  }

  /** `"".join(parts)` */
  function Concat(parts: seq<string>): string
  {
    if |parts| == 0 then "" else parts[0] + Concat(parts[1..])
  }

  lemma {:induction false} ConcatAppend(a: seq<string>, b: seq<string>)
    ensures Concat(a + b) == Concat(a) + Concat(b)
    decreases |a|
  {
    if |a| == 0 {
      assert a + b == b;
    } else {
      assert (a + b)[1..] == a[1..] + b;
      ConcatAppend(a[1..], b);
    }
  }

  /** `r` is what `str.strip()` makes of `s`: `s` with its leading and
      trailing whitespace cut off, and nothing else. */
  ghost predicate IsStripOf(s: string, r: string)
  {
    exists i :: StripWindow(s, r, i)
  }

  /** `r` sits in `s` at offset `i`, with only whitespace around it. */
  predicate StripWindow(s: string, r: string, i: int)
  {
    && 0 <= i && i + |r| <= |s| && r == s[i..i + |r|]
    && AllSpace(s[..i]) && AllSpace(s[i + |r|..]) && Tight(r)
  }

  /** `s` without its leading whitespace. */
  function StripLeft(s: string): (r: string)
    ensures |r| <= |s|
  {
    if |s| > 0 && IsSpace(s[0]) then StripLeft(s[1..]) else s
  }

  /** `s` without its trailing whitespace. */
  function StripRight(s: string): (r: string)
    ensures |r| <= |s|
  {
    if |s| > 0 && IsSpace(s[|s| - 1]) then StripRight(s[..|s| - 1]) else s
  }

  /** Python's `s.strip()`. */
  function Strip(s: string): string
  {
    StripRight(StripLeft(s))
  }

  /** `StripLeft` cuts off a prefix of whitespace and stops at ink. */
  lemma {:induction false} StripLeftCutsSpace(s: string)
    ensures s[|s| - |StripLeft(s)|..] == StripLeft(s)
    ensures AllSpace(s[..|s| - |StripLeft(s)|])
    ensures |StripLeft(s)| > 0 ==> !IsSpace(StripLeft(s)[0])
    decreases |s|
  {
    if |s| > 0 && IsSpace(s[0]) {
      StripLeftCutsSpace(s[1..]);
      assert s[1..][..|s| - 1 - |StripLeft(s)|] == s[1..|s| - |StripLeft(s)|];
    }
  }

  /** `StripRight` cuts off a suffix of whitespace and stops at ink. */
  lemma {:induction false} StripRightCutsSpace(s: string)
    ensures s[..|StripRight(s)|] == StripRight(s)
    ensures AllSpace(s[|StripRight(s)|..])
    ensures |StripRight(s)| > 0 ==> !IsSpace(StripRight(s)[|StripRight(s)| - 1])
    decreases |s|
  {
    if |s| > 0 && IsSpace(s[|s| - 1]) {
      StripRightCutsSpace(s[..|s| - 1]);
      assert s[|StripRight(s)|..] == s[..|s| - 1][|StripRight(s)|..] + [s[|s| - 1]];
    }
  }

  /** `Strip` removes the leading and trailing whitespace and nothing else. */
  lemma StripIsStripOf(s: string)
    ensures IsStripOf(s, Strip(s))
  {
    var l := StripLeft(s);
    var r := StripRight(l);
    StripLeftCutsSpace(s);
    StripRightCutsSpace(l);
    var i := |s| - |l|;
    assert r == s[i..i + |r|];
    assert AllSpace(s[i + |r|..]) by {
      assert s[i + |r|..] == l[|r|..];
    }
    assert |r| > 0 ==> !IsSpace(r[0]) by {
      if |r| > 0 { assert r[0] == l[0]; }
    }
    assert StripWindow(s, r, i);
  }

  /** A non-space character of `s` lies inside any strip window of `s`. */
  lemma InkInsideWindow(s: string, i: nat, j: nat, k: nat)
    requires i <= j <= |s| && AllSpace(s[..i]) && AllSpace(s[j..])
    requires k < |s| && !IsSpace(s[k])
    ensures i <= k < j
  {
  }

  /** The stripped form is unique: `IsStripOf` pins `Strip` down exactly. */
  lemma StripUnique(s: string, r: string)
    requires IsStripOf(s, r)
    ensures r == Strip(s)
  {
    StripIsStripOf(s);
    var i :| StripWindow(s, r, i);
    var i' :| StripWindow(s, Strip(s), i');
    WindowsAgree(s, r, i, Strip(s), i');
  }

  lemma WindowsAgree(s: string, r: string, i: nat, r': string, i': nat)
    requires StripWindow(s, r, i) && StripWindow(s, r', i')
    ensures r == r'
  {
    if |r| > 0 {
      assert s[i] == r[0];
      assert s[i + |r| - 1] == r[|r| - 1];
      InkInsideWindow(s, i', i' + |r'|, i);
      InkInsideWindow(s, i', i' + |r'|, i + |r| - 1);
      assert s[i'] == r'[0];
      assert s[i' + |r'| - 1] == r'[|r'| - 1];
      InkInsideWindow(s, i, i + |r|, i');
      InkInsideWindow(s, i, i + |r|, i' + |r'| - 1);
      assert i == i' && |r| == |r'|;
    } else if |r'| > 0 {
      assert s[i'] == r'[0];
      InkInsideWindow(s, i, i + |r|, i');
    }
  }

  /** A string that neither starts nor ends with whitespace is its own strip. */
  lemma StripTight(s: string)
    requires Tight(s)
    ensures Strip(s) == s
  {
    assert StripWindow(s, s, 0);
    StripUnique(s, s);
  }

  /** Stripping leaves `s` alone exactly when `s` is tight. */
  lemma StripFixesTight(s: string)
    ensures Strip(s) == s <==> Tight(s)
  {
    StripIsStripOf(s);
    var i :| StripWindow(s, Strip(s), i);
    if Tight(s) {
      StripTight(s);
    }
  }

  /** Whitespace around a tight string is exactly what stripping removes. */
  lemma StripPadded(a: string, w: string, c: string)
    requires AllSpace(a) && Tight(w) && AllSpace(c)
    ensures Strip(a + w + c) == w
  {
    var s := a + w + c;
    assert s[..|a|] == a && s[|a|..|a| + |w|] == w && s[|a| + |w|..] == c;
    assert StripWindow(s, w, |a|);
    StripUnique(s, w);
  }

  /** The characters of `s` that are not whitespace, in order. */
  function Ink(s: string): (r: string)
    ensures |r| <= |s|
  {
    if |s| == 0 then "" else (if IsSpace(s[0]) then "" else [s[0]]) + Ink(s[1..])
  }

  lemma {:induction false} InkAppend(a: string, b: string)
    ensures Ink(a + b) == Ink(a) + Ink(b)
    decreases |a|
  {
    if |a| == 0 {
      assert a + b == b;
    } else {
      assert (a + b)[1..] == a[1..] + b;
      InkAppend(a[1..], b);
    }
  }

  lemma {:induction false} InkAllSpace(s: string)
    requires AllSpace(s)
    ensures Ink(s) == ""
    decreases |s|
  {
    if |s| > 0 {
      InkAllSpace(s[1..]);
    }
  }

  /** Stripping removes only whitespace: the non-space characters survive. */
  lemma StripKeepsInk(s: string)
    ensures Ink(Strip(s)) == Ink(s)
  {
    StripIsStripOf(s);
    var r := Strip(s);
    var i :| StripWindow(s, r, i);
    var a, c := s[..i], s[i + |r|..];
    assert s == a + r + c;
    InkAppend(a + r, c);
    InkAppend(a, r);
    InkAllSpace(a);
    InkAllSpace(c);
  }
}
