/** `re.sub(pattern, replacement, text)` when the pattern matches one fixed
    string (the scripts escape only parentheses, so every pattern they use is
    a literal) and the replacement contains no group reference; the same
    function is Python's `text.replace(p, q)`. The scan is leftmost and
    non-overlapping: after a match it resumes after the matched text, and the
    inserted replacement is never searched again. */
module LiteralReplace {
  import opened PyBuiltins

  function ReplaceAll(t: string, p: string, q: string): string
    requires |p| > 0
    decreases |t|
  {
    if t == [] then []
    else if StartsWith(t, p) then q + ReplaceAll(t[|p|..], p, q)
    else [t[0]] + ReplaceAll(t[1..], p, q)
  }

  /** The first character of `p` does not occur again in `p`; such a
      pattern cannot overlap itself. */
  predicate HeadUnique(p: string) {
    |p| > 0 && p[0] !in p[1..]
  }

  /** A pattern starts a text that opens with `c` exactly when `c` is the
      pattern's first character and the rest of the pattern starts the rest. */
  lemma StartsWithCons(c: char, t: string, p: string)
    requires |p| > 0
    ensures StartsWith([c] + t, p) <==> c == p[0] && StartsWith(t, p[1..])
  {
    if |p| <= |[c] + t| {
      assert ([c] + t)[..|p|] == [c] + t[..|p| - 1];
      assert p == [p[0]] + p[1..];
    }
  }

  /** A positive count times a non-zero factor is non-zero, with the
      factor's sign. */
  lemma {:induction false} ScaledNonZero(c: nat, d: int)
    requires c >= 1 && d != 0
    ensures d > 0 ==> c * d >= d
    ensures d < 0 ==> c * d <= d
    decreases c
  {
    if c > 1 {
      ScaledNonZero(c - 1, d);
      assert c * d == (c - 1) * d + d;
    }
  }

  /** One more occurrence adds one more length change. */
  lemma MulSucc(c: int, d: int)
    ensures (1 + c) * d == d + c * d
  {
  }

  /** Without an occurrence of the pattern the text comes back as it was. */
  lemma {:induction false} ReplaceAbsent(t: string, p: string, q: string)
    requires |p| > 0 && !Contains(t, p)
    ensures ReplaceAll(t, p, q) == t
    decreases |t|
  {
    if t != [] {
      ReplaceAbsent(t[1..], p, q);
      assert t == [t[0]] + t[1..];
    }
  }

  /** Each of the `Count(t, p)` occurrences replaced changes the length by
      `|q| - |p|`, and nothing else changes it. */
  lemma {:induction false} ReplaceLength(t: string, p: string, q: string)
    requires |p| > 0
    ensures |ReplaceAll(t, p, q)| == |t| + Count(t, p) * (|q| - |p|)
    decreases |t|
  {
    if t != [] {
      if StartsWith(t, p) {
        ReplaceLength(t[|p|..], p, q);
        MulSucc(Count(t[|p|..], p), |q| - |p|);
      } else {
        ReplaceLength(t[1..], p, q);
      }
    }
  }

  /** A character in neither the text nor the replacement is not in the
      result. */
  lemma {:induction false} ReplaceCharOut(t: string, p: string, q: string, c: char)
    requires |p| > 0 && c !in t && c !in q
    ensures c !in ReplaceAll(t, p, q)
    decreases |t|
  {
    if t != [] {
      if StartsWith(t, p) {
        assert forall x :: x in t[|p|..] ==> x in t;
        ReplaceCharOut(t[|p|..], p, q, c);
      } else {
        assert forall x :: x in t[1..] ==> x in t;
        ReplaceCharOut(t[1..], p, q, c);
      }
    }
  }

  /** When pattern and replacement differ in length, the text changes
      exactly when it contains the pattern. */
  lemma ReplaceChanges(t: string, p: string, q: string)
    requires |p| > 0 && |p| != |q|
    ensures ReplaceAll(t, p, q) != t <==> Contains(t, p)
  {
    CountPositive(t, p);
    ReplaceLength(t, p, q);
    if !Contains(t, p) {
      ReplaceAbsent(t, p, q);
    } else {
      ScaledNonZero(Count(t, p), |q| - |p|);
    }
  }

  /** A character that does not begin an occurrence of the pattern passes
      through unchanged. */
  lemma ReplaceSkip(c: char, t: string, p: string, q: string)
    requires |p| > 0 && !StartsWith([c] + t, p)
    ensures ReplaceAll([c] + t, p, q) == [c] + ReplaceAll(t, p, q)
  {
    assert ([c] + t)[1..] == t;
  }

  /** A character other than the pattern's first passes through unchanged. */
  lemma ReplaceCons(c: char, t: string, p: string, q: string)
    requires |p| > 0 && c != p[0]
    ensures ReplaceAll([c] + t, p, q) == [c] + ReplaceAll(t, p, q)
  {
    ReplaceSkip(c, t, p, q);
  }

  /** A text that starts with the pattern is rewritten starting with the
      replacement. */
  lemma ReplaceHead(p: string, q: string, t: string)
    requires |p| > 0
    ensures ReplaceAll(p + t, p, q) == q + ReplaceAll(t, p, q)
  {
    assert (p + t)[..|p|] == p;
    assert (p + t)[|p|..] == t;
  }

  /** Leading characters that cannot start the pattern are kept in front. */
  lemma {:induction false} ReplaceKeepsPrefix(w: string, t: string, p: string, q: string)
    requires |p| > 0 && p[0] !in w
    ensures ReplaceAll(w + t, p, q) == w + ReplaceAll(t, p, q)
    decreases |w|
  {
    if w == [] {
      assert w + t == t;
    } else {
      assert w[0] in w;
      assert forall c :: c in w[1..] ==> c in w;
      assert w + t == [w[0]] + (w[1..] + t);
      ReplaceCons(w[0], w[1..] + t, p, q);
      ReplaceKeepsPrefix(w[1..], t, p, q);
      assert w == [w[0]] + w[1..];
      assert [w[0]] + (w[1..] + ReplaceAll(t, p, q)) == w + ReplaceAll(t, p, q);
    }
  }

  /** A prefix `w` of the rewritten text in which the replacement's first
      character does not occur was already a prefix of the original text:
      no replacement can have produced it. */
  lemma {:induction false} PrefixThroughReplace(u: string, p: string, q: string, w: string)
    requires |p| > 0 && |q| > 0 && q[0] !in w
    requires StartsWith(ReplaceAll(u, p, q), w)
    ensures StartsWith(u, w)
    decreases |w|
  {
    if w != [] {
      assert w[0] in w;
      assert u != [];
      assert !StartsWith(u, p);
      var rest := ReplaceAll(u[1..], p, q);
      assert ReplaceAll(u, p, q) == [u[0]] + rest;
      assert StartsWith(rest, w[1..]);
      assert forall c :: c in w[1..] ==> c in w;
      PrefixThroughReplace(u[1..], p, q, w[1..]);
      assert u[..|w|] == [u[0]] + u[1..][..|w| - 1];
      assert w == [w[0]] + w[1..];
    }
  }

  /** Where a contained pattern starts in `a + b` and not in `b`, it starts
      inside `a`. */
  lemma {:induction false} ContainsConcat(a: string, b: string, p: string)
    requires Contains(a + b, p) && !Contains(b, p)
    ensures exists j :: 0 <= j < |a| && StartsWith((a + b)[j..], p)
    decreases |a|
  {
    if a == [] {
    } else if !StartsWith(a + b, p) {
      assert (a + b)[1..] == a[1..] + b;
      ContainsConcat(a[1..], b, p);
      var j :| 0 <= j < |a[1..]| && StartsWith((a[1..] + b)[j..], p);
      assert (a + b)[j + 1..] == (a[1..] + b)[j..];
    } else {
      assert (a + b)[0..] == a + b;
    }
  }

  /** The rewrite leaves no occurrence of the pattern behind, provided that
      the pattern's first character does not recur in the replacement, the
      replacement's first character does not recur in the pattern, and
      neither of the two is a prefix of the other. */
  lemma {:induction false} ReplaceLeavesNoPattern(t: string, p: string, q: string)
    requires |p| > 0 && |q| > 0
    requires p[0] !in q[1..] && q[0] !in p[1..]
    requires !StartsWith(q, p) && !StartsWith(p, q)
    ensures !Contains(ReplaceAll(t, p, q), p)
    decreases |t|
  {
    if t == [] {
    } else if StartsWith(t, p) {
      ReplaceLeavesNoPattern(t[|p|..], p, q);
      NoPatternAcrossReplacement(q, ReplaceAll(t[|p|..], p, q), p, 0);
    } else {
      var s := ReplaceAll(t[1..], p, q);
      ReplaceLeavesNoPattern(t[1..], p, q);
      assert t == [t[0]] + t[1..];
      StartsWithCons(t[0], t[1..], p);
      StartsWithCons(t[0], s, p);
      if t[0] == p[0] && StartsWith(s, p[1..]) {
        PrefixThroughReplace(t[1..], p, q, p[1..]);
      }
      assert ([t[0]] + s)[1..] == s;
    }
  }

  /** No occurrence of `p` starts inside a replacement `q` that is followed
      by text `s` free of `p`. */
  lemma {:induction false} NoPatternAcrossReplacement(q: string, s: string, p: string, j: nat)
    requires |p| > 0 && |q| > 0 && j <= |q|
    requires p[0] !in q[1..]
    requires !StartsWith(q, p) && !StartsWith(p, q)
    requires !Contains(s, p)
    ensures !Contains((q + s)[j..], p)
    decreases |q| - j
  {
    if j == |q| {
      assert (q + s)[j..] == s;
    } else {
      NoPatternAcrossReplacement(q, s, p, j + 1);
      var u := (q + s)[j..];
      assert u[1..] == (q + s)[j + 1..];
      if j > 0 {
        assert u[0] == q[j] == q[1..][j - 1];
        assert u[0] != p[0];
      } else if |p| <= |q| {
        assert u[..|p|] == q[..|p|];
      } else {
        assert |p| <= |u| ==> u[..|p|][..|q|] == q;
      }
      assert !StartsWith(u, p);
    }
  }

  /** Replacing `p` by `q` and then `q` by `p` gives the text back, provided
      the text held no `q` to begin with and `q` cannot overlap itself. */
  lemma {:induction false} ReplaceInverse(t: string, p: string, q: string)
    requires |p| > 0 && HeadUnique(q)
    requires !Contains(t, q)
    ensures ReplaceAll(ReplaceAll(t, p, q), q, p) == t
    decreases |t|
  {
    if t == [] {
    } else if StartsWith(t, p) {
      var rest := t[|p|..];
      if Contains(rest, q) { ContainsSuffix(t, q, |p|); }
      ReplaceInverse(rest, p, q);
      ReplaceHead(q, p, ReplaceAll(rest, p, q));
      assert t == p + rest;
    } else {
      var s := ReplaceAll(t[1..], p, q);
      assert t == [t[0]] + t[1..];
      ReplaceSkip(t[0], t[1..], p, q);
      ReplaceInverse(t[1..], p, q);
      StartsWithCons(t[0], t[1..], q);
      StartsWithCons(t[0], s, q);
      if t[0] == q[0] && StartsWith(s, q[1..]) {
        PrefixThroughReplace(t[1..], p, q, q[1..]);
      }
      ReplaceSkip(t[0], s, q, p);
    }
  }

  /** Rewriting a second time changes nothing once no pattern is left. */
  lemma ReplaceIdempotent(t: string, p: string, q: string)
    requires |p| > 0 && |q| > 0
    requires p[0] !in q[1..] && q[0] !in p[1..]
    requires !StartsWith(q, p) && !StartsWith(p, q)
    ensures ReplaceAll(ReplaceAll(t, p, q), p, q) == ReplaceAll(t, p, q)
  {
    ReplaceLeavesNoPattern(t, p, q);
    ReplaceAbsent(ReplaceAll(t, p, q), p, q);
  }

  // ---------------------------------------------------------------------
  // Counting a piece of the pattern
  // ---------------------------------------------------------------------

  /** For a self-overlap-free `s`, right after an occurrence of `s` the
      count is the same from every position up to the occurrence's end. */
  lemma {:induction false} CountSkipsInside(t: string, s: string, d: nat)
    requires HeadUnique(s) && StartsWith(t, s) && 1 <= d <= |s|
    ensures Count(t[d..], s) == Count(t[|s|..], s)
    decreases |s| - d
  {
    if d < |s| {
      assert t[d..] != [];
      assert t[d] == s[d] == s[1..][d - 1];
      assert !StartsWith(t[d..], s);
      assert t[d..][1..] == t[d + 1..];
      CountSkipsInside(t, s, d + 1);
    }
  }

  /** Dropping the first character never raises the count of a
      self-overlap-free `s`. */
  lemma CountTailAtMost(t: string, s: string)
    requires HeadUnique(s) && t != []
    ensures Count(t[1..], s) <= Count(t, s)
  {
    if StartsWith(t, s) {
      CountSkipsInside(t, s, 1);
    }
  }

  /** Dropping any prefix never raises the count of a self-overlap-free `s`. */
  lemma {:induction false} CountSuffixAtMost(t: string, s: string, k: nat)
    requires HeadUnique(s) && k <= |t|
    ensures Count(t[k..], s) <= Count(t, s)
    decreases k
  {
    if k > 0 {
      CountTailAtMost(t, s);
      assert t[1..][k - 1..] == t[k..];
      CountSuffixAtMost(t[1..], s, k - 1);
    }
  }

  /** When every occurrence of `p` holds `s` at offset `k`, and `s` cannot
      overlap itself, `s` is counted at least as often as `p`. */
  lemma {:induction false} CountOfInnerPiece(t: string, p: string, s: string, k: nat)
    requires |p| > 0 && HeadUnique(s)
    requires k + |s| <= |p| && p[k..k + |s|] == s
    ensures Count(t, s) >= Count(t, p)
    decreases |t|
  {
    if t != [] {
      if StartsWith(t, p) {
        CountOfInnerPiece(t[|p|..], p, s, k);
        CountSuffixAtMost(t, s, k);
        assert StartsWith(t[k..], s) by {
          assert t[k..][..|s|] == t[..|p|][k..k + |s|];
        }
        assert t[k..] != [];
        assert t[k..][|s|..] == t[k + |s|..];
        CountSuffixAtMost(t[k + |s|..], s, |p| - k - |s|);
        assert t[k + |s|..][|p| - k - |s|..] == t[|p|..];
      } else {
        CountOfInnerPiece(t[1..], p, s, k);
        CountTailAtMost(t, s);
      }
    }
  }
}
