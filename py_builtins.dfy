/** The handful of Python built-ins the maintenance scripts rely on, as Dafny
    functions over `string` (a `seq<char>`) and `seq`: substring search
    (`in`, `count`), `startswith`, `endswith`, `strip`, `lstrip`, the
    leading-whitespace count `len(s) - len(s.lstrip())`, `' ' * n`,
    `split('\n')` / `'\n'.join(...)`, list indexing and `list.insert` with
    negative positions, and `sorted(..., reverse=True)` on integers. */
module PyBuiltins {

  /** Python's `str.isspace` restricted to ASCII: space, \t, \n, \v, \f, \r
      and the four separators \x1c..\x1f. */
  predicate IsSpace(c: char) {
    c == ' ' || ('\t' <= c <= '\r') || ('\U{1C}' <= c <= '\U{1F}')
  }

  /** `s.startswith(p)` */
  predicate StartsWith(s: string, p: string) {
    |p| <= |s| && s[..|p|] == p
  }

  /** `s.endswith(p)` */
  predicate EndsWith(s: string, p: string) {
    |p| <= |s| && s[|s| - |p|..] == p
  }

  /** `p in s`: some suffix of `s` starts with `p`. */
  predicate Contains(s: string, p: string)
    decreases |s|
  {
    StartsWith(s, p) || (s != [] && Contains(s[1..], p))
  }

  /** `s.count(p)` for a non-empty `p`: leftmost, non-overlapping occurrences. */
  function Count(s: string, p: string): nat
    requires |p| > 0
    decreases |s|
  {
    if s == [] then 0
    else if StartsWith(s, p) then 1 + Count(s[|p|..], p)
    else Count(s[1..], p)
  }

  /** `s.lstrip()` */
  function LStrip(s: string): (r: string)
    ensures |r| <= |s| && r == s[|s| - |r|..]
    ensures r == [] || !IsSpace(r[0])
    ensures forall i :: 0 <= i < |s| - |r| ==> IsSpace(s[i])
  {
    if s != [] && IsSpace(s[0]) then LStrip(s[1..]) else s
  }

  /** `s.rstrip()` */
  function RStrip(s: string): (r: string)
    ensures |r| <= |s| && r == s[..|r|]
    ensures r == [] || !IsSpace(r[|r| - 1])
    ensures forall i :: |r| <= i < |s| ==> IsSpace(s[i])
  {
    if s != [] && IsSpace(s[|s| - 1]) then RStrip(s[..|s| - 1]) else s
  }

  /** `s.strip()` */
  function Strip(s: string): string {
    RStrip(LStrip(s))
  }

  /** `len(s) - len(s.lstrip())`: the length of the run of whitespace that
      opens `s`. */
  function Indent(s: string): (n: nat)
    ensures n <= |s|
    ensures forall i :: 0 <= i < n ==> IsSpace(s[i])
    ensures n == |s| || !IsSpace(s[n])
  {
    |s| - |LStrip(s)|
  }

  /** `' ' * n` */
  function Spaces(n: nat): (r: string)
    ensures |r| == n && forall i :: 0 <= i < n ==> r[i] == ' '
  {
    seq(n, _ => ' ')
  }

  /** `s.split(sep)` for a one-character separator: never empty, and no
      piece holds the separator. */
  function Split(s: string, sep: char): (r: seq<string>)
    ensures |r| >= 1
    ensures forall i :: 0 <= i < |r| ==> sep !in r[i]
  {
    if s == [] then [[]]
    else
      var rest := Split(s[1..], sep);
      if s[0] == sep then [[]] + rest
      else [[s[0]] + rest[0]] + rest[1..]
  }

  /** `sep.join(parts)` */
  function Join(parts: seq<string>, sep: char): string
  {
    if |parts| == 0 then []
    else if |parts| == 1 then parts[0]
    else parts[0] + [sep] + Join(parts[1..], sep)
  }

  /** Python list indexing `xs[i]` for `-len(xs) <= i < len(xs)`. */
  function PyIndex(i: int, n: nat): (k: nat)
    requires 0 <= n + i && i < n
    ensures k < n && (i >= 0 ==> k == i) && (i < 0 ==> k == n + i)
  {
    if i >= 0 then i else n + i
  }

  /** The position at which Python's `xs.insert(i, x)` places `x` when
      `len(xs) == n`: negative positions count from the end, and both ends
      are clamped. */
  function InsertPosition(i: int, n: nat): (k: nat)
    ensures k <= n
    ensures 0 <= i <= n ==> k == i
    ensures 0 <= n + i && i < 0 ==> k == n + i
  {
    if i < 0 then (if n + i < 0 then 0 else n + i)
    else if i > n then n
    else i
  }

  /** `xs.insert(i, x)` */
  function Insert<T>(xs: seq<T>, i: int, x: T): (r: seq<T>)
    ensures |r| == |xs| + 1
    ensures var k := InsertPosition(i, |xs|);
      r[..k] == xs[..k] && r[k] == x && r[k + 1..] == xs[k..]
  {
    var k := InsertPosition(i, |xs|);
    xs[..k] + [x] + xs[k..]
  }

  predicate SortedDescending(xs: seq<int>) {
    forall i, j :: 0 <= i < j < |xs| ==> xs[i] >= xs[j]
  }

  function InsertDescending(x: int, xs: seq<int>): (r: seq<int>)
    requires SortedDescending(xs)
    ensures SortedDescending(r)
    ensures multiset(r) == multiset(xs) + multiset{x}
    ensures |r| == |xs| + 1
    ensures r[0] == x || (xs != [] && r[0] == xs[0])
  {
    if xs == [] || x >= xs[0] then
      SortedCons(x, xs);
      [x] + xs
    else
      assert xs == [xs[0]] + xs[1..];
      var tail := InsertDescending(x, xs[1..]);
      SortedCons(xs[0], tail);
      [xs[0]] + tail
  }

  /** A sorted sequence stays sorted under a new first element at least
      as large as its old first element. */
  lemma SortedCons(h: int, t: seq<int>)
    requires SortedDescending(t) && (t != [] ==> h >= t[0])
    ensures SortedDescending([h] + t)
  {
    var r := [h] + t;
    forall i, j | 0 <= i < j < |r| ensures r[i] >= r[j] {
      assert r[j] == t[j - 1];
      if i == 0 {
        assert t[0] >= t[j - 1];
      } else {
        assert r[i] == t[i - 1];
      }
    }
  }

  /** `sorted(xs, reverse=True)` */
  function SortDescending(xs: seq<int>): (r: seq<int>)
    ensures SortedDescending(r)
    ensures multiset(r) == multiset(xs)
    ensures |r| == |xs|
  {
    if xs == [] then []
    else
      assert xs == [xs[0]] + xs[1..];
      InsertDescending(xs[0], SortDescending(xs[1..]))
  }

  // ---------------------------------------------------------------------
  // Lemmas about the string helpers
  // ---------------------------------------------------------------------

  /** A string contains a pattern exactly when it counts at least one. */
  lemma {:induction false} CountPositive(s: string, p: string)
    requires |p| > 0
    ensures Count(s, p) > 0 <==> Contains(s, p)
    decreases |s|
  {
    if s != [] && !StartsWith(s, p) {
      CountPositive(s[1..], p);
    }
  }

  /** `p in s` holds when `p` starts at position `k` of `s`. */
  lemma {:induction false} ContainsAt(s: string, p: string, k: nat)
    requires k <= |s| && StartsWith(s[k..], p)
    ensures Contains(s, p)
    decreases k
  {
    if k > 0 {
      assert s[1..][k - 1..] == s[k..];
      ContainsAt(s[1..], p, k - 1);
    }
  }

  /** A suffix of `s` contains only patterns that `s` contains. */
  lemma {:induction false} ContainsSuffix(s: string, p: string, k: nat)
    requires k <= |s| && Contains(s[k..], p)
    ensures Contains(s, p)
    decreases k
  {
    if k > 0 {
      assert s[1..][k - 1..] == s[k..];
      ContainsSuffix(s[1..], p, k - 1);
    }
  }

  /** If `s` contains `p`, and `p` contains `w` at offset `k`, then `s`
      contains `w`. */
  lemma {:induction false} ContainsInner(s: string, p: string, w: string, k: nat)
    requires Contains(s, p)
    requires k + |w| <= |p| && p[k..k + |w|] == w
    ensures Contains(s, w)
    decreases |s|
  {
    if StartsWith(s, p) {
      assert s[k..][..|w|] == w;
      ContainsAt(s, w, k);
    } else {
      ContainsInner(s[1..], p, w, k);
    }
  }

  /** Every character of a contained pattern occurs in the string. */
  lemma {:induction false} ContainsChar(s: string, p: string, c: char)
    requires Contains(s, p) && c in p
    ensures c in s
    decreases |s|
  {
    if StartsWith(s, p) {
      var i :| 0 <= i < |p| && p[i] == c;
      assert s[i] == c;
    } else {
      ContainsChar(s[1..], p, c);
      assert s == [s[0]] + s[1..];
    }
  }

  /** A string of spaces followed by `t` contains a pattern that `t` does. */
  lemma SpacesThenContains(n: nat, t: string, p: string)
    requires Contains(t, p)
    ensures Contains(Spaces(n) + t, p)
  {
    assert (Spaces(n) + t)[n..] == t;
    ContainsSuffix(Spaces(n) + t, p, n);
  }

  /** Padding with whitespace in front of a string that does not start
      with whitespace shifts its indent by the padding's length. */
  lemma {:induction false} LStripAfterSpaces(w: string, x: string)
    requires forall i :: 0 <= i < |w| ==> IsSpace(w[i])
    requires x == [] || !IsSpace(x[0])
    ensures LStrip(w + x) == x
    decreases |w|
  {
    if w != [] {
      assert (w + x)[1..] == w[1..] + x;
      LStripAfterSpaces(w[1..], x);
    }
  }

  /** `' ' * n + t` has indent `n` when `t` does not start with whitespace. */
  lemma IndentOfSpaces(n: nat, t: string)
    requires t == [] || !IsSpace(t[0])
    ensures Indent(Spaces(n) + t) == n
  {
    LStripAfterSpaces(Spaces(n), t);
  }

  // ---------------------------------------------------------------------
  // split / join
  // ---------------------------------------------------------------------

  /** `sep.join(s.split(sep)) == s` */
  lemma {:induction false} JoinSplit(s: string, sep: char)
    ensures Join(Split(s, sep), sep) == s
    decreases |s|
  {
    if s != [] {
      var rest := Split(s[1..], sep);
      JoinSplit(s[1..], sep);
      if s[0] == sep {
        assert ([[]] + rest)[1..] == rest;
      } else {
        var r := [[s[0]] + rest[0]] + rest[1..];
        assert r[1..] == rest[1..];
        if |rest| > 1 {
          assert Join(rest, sep) == rest[0] + [sep] + Join(rest[1..], sep);
        }
        assert s == [s[0]] + s[1..];
      }
    }
  }

  /** `s.split(sep)` on a separator-free string is that string alone. */
  lemma {:induction false} SplitNoSeparator(w: string, sep: char)
    requires sep !in w
    ensures Split(w, sep) == [w]
    decreases |w|
  {
    if w != [] {
      SplitNoSeparator(w[1..], sep);
      assert w == [w[0]] + w[1..];
    }
  }

  /** A separator-free piece followed by the separator is split off as one
      piece. */
  lemma {:induction false} SplitPiece(w: string, t: string, sep: char)
    requires sep !in w
    ensures Split(w + [sep] + t, sep) == [w] + Split(t, sep)
    decreases |w|
  {
    if w == [] {
      assert w + [sep] + t == [sep] + t;
      assert ([sep] + t)[1..] == t;
    } else {
      assert (w + [sep] + t)[1..] == w[1..] + [sep] + t;
      SplitPiece(w[1..], t, sep);
      assert w == [w[0]] + w[1..];
    }
  }

  /** `sep.join(parts).split(sep) == parts` when no piece holds the
      separator. */
  lemma {:induction false} SplitJoin(parts: seq<string>, sep: char)
    requires |parts| >= 1
    requires forall i :: 0 <= i < |parts| ==> sep !in parts[i]
    ensures Split(Join(parts, sep), sep) == parts
    decreases |parts|
  {
    if |parts| == 1 {
      SplitNoSeparator(parts[0], sep);
    } else {
      SplitJoin(parts[1..], sep);
      SplitPiece(parts[0], Join(parts[1..], sep), sep);
      assert parts == [parts[0]] + parts[1..];
    }
  }

  /** Joining is injective on separator-free pieces. */
  lemma JoinInjective(a: seq<string>, b: seq<string>, sep: char)
    requires |a| >= 1 && |b| >= 1
    requires forall i :: 0 <= i < |a| ==> sep !in a[i]
    requires forall i :: 0 <= i < |b| ==> sep !in b[i]
    ensures Join(a, sep) == Join(b, sep) <==> a == b
  {
    SplitJoin(a, sep);
    SplitJoin(b, sep);
  }
}
