/** backend/fix-returns.py, `fix_file` without the file I/O: at each listed
    line number (1-based, taken from a build log), when that line sends a
    response without returning and the next line holds no `return;`, insert
    `return;` at the line's indent right after it. The numbers are taken
    largest first, so an insertion never shifts a line still to be
    visited. */
module FixReturns {
  import opened PyBuiltins
  import opened InsertedReturns

  /** The table of files and line numbers the script fixes. */
  const Fixes: map<string, seq<int>> := map[
    "src/routes/analytics.ts" := [86, 254],
    "src/routes/drugs.ts" := [47, 167, 217, 300],
    "src/routes/healthMetrics.ts" := [44, 132, 194, 367],
    "src/routes/inventory.ts" := [46, 258, 364],
    "src/routes/messages.ts" := [38, 246, 407],
    "src/routes/notifications.ts" := [47, 167, 220],
    "src/routes/prescriptions.ts" := [65, 151, 273]
  ]

  /** Every number is a real (1-based) line number. */
  predicate AllPositive(lineNumbers: seq<int>) {
    forall n :: n in lineNumbers ==> n >= 1
  }

  /** Every number in the table is a real line number. */
  lemma FixesArePositive()
    ensures forall f :: f in Fixes ==> AllPositive(Fixes[f])
  {
    forall f | f in Fixes ensures AllPositive(Fixes[f]) {
      assert forall i :: 0 <= i < |Fixes[f]| ==> Fixes[f][i] >= 1;
    }
  }

  /** `'res.json(' in line or 'res.status(' in line` */
  predicate SendsResponse(line: string) {
    Contains(line, "res.json(") || Contains(line, "res.status(")
  }

  /** The script's guards at 0-based index `idx` of the current lines:
      the line sends a response, does not start with `return` once
      stripped, has a next line, and that next line holds no `return;`. */
  predicate Eligible(ls: seq<string>, idx: nat) {
    idx + 1 < |ls| && SendsResponse(ls[idx]) && !StartsWith(Strip(ls[idx]), "return")
      && !Contains(ls[idx + 1], "return;")
  }

  /** Which lines of the input get a return statement once the numbers in
      `done` have been visited: those listed and eligible in the input. */
  function Targets(lines: seq<string>, done: seq<int>): (m: seq<bool>)
    ensures |m| == |lines|
  {
    TargetsBelow(lines, done, |lines|)
  }

  /** The marks of the first `k` lines. */
  function TargetsBelow(lines: seq<string>, done: seq<int>, k: nat): (m: seq<bool>)
    requires k <= |lines|
    ensures |m| == k
  {
    if k == 0 then [] else TargetsBelow(lines, done, k - 1) + [IsTarget(lines, done, k - 1)]
  }

  /** Each mark is the line's own test. */
  lemma {:induction false} TargetsBelowAt(lines: seq<string>, done: seq<int>, k: nat)
    requires k <= |lines|
    ensures forall i :: 0 <= i < k ==> TargetsBelow(lines, done, k)[i] == IsTarget(lines, done, i)
    decreases k
  {
    if k > 0 {
      TargetsBelowAt(lines, done, k - 1);
    }
  }

  /** Line `i` is marked exactly when it is listed and eligible. */
  lemma TargetsAt(lines: seq<string>, done: seq<int>)
    ensures forall i :: 0 <= i < |lines| ==> Targets(lines, done)[i] == IsTarget(lines, done, i)
  {
    TargetsBelowAt(lines, done, |lines|);
  }

  /** Line `i` is listed among the visited numbers and eligible. */
  predicate IsTarget(lines: seq<string>, done: seq<int>, i: nat) {
    (i + 1) in done && Eligible(lines, i)
  }

  /** The lines the script writes back for positive line numbers: every
      input line, followed by `' ' * indent + 'return;\n'` when it is listed
      and eligible in the input. */
  function FixedLines(lines: seq<string>, lineNumbers: seq<int>): seq<string> {
    Expand(lines, Targets(lines, lineNumbers), "\n")
  }

  /** What becomes of one file: written back, or not written because Python
      raised an IndexError (`Error fixing`). */
  datatype Outcome = Written(lines: seq<string>) | Failed

  /** What one pass of the loop body leaves: the lines, or an IndexError. */
  datatype Visit = Continue(lines: seq<string>) | IndexError

  /** One pass of the loop body, with Python's indexing: a negative index
      counts from the end, one below `-len(lines)` raises an IndexError, and
      `insert` clamps its position. At a positive number the pass inserts
      the return statement right after the line it points at exactly when
      that line is eligible, and otherwise leaves the lines alone. */
  method VisitLine(ls: seq<string>, lineNum: int) returns (r: Visit)
    ensures r.IndexError? <==> lineNum - 1 < -|ls|
    ensures r.Continue? ==> |ls| <= |r.lines| <= |ls| + 1 && OnlyReturnsInserted(ls, r.lines, "\n")
    ensures lineNum >= 1 ==> r == Continue(
      if Eligible(ls, lineNum - 1) then Insert(ls, lineNum, ReturnStatement(Indent(ls[lineNum - 1]), "\n"))
      else ls)
  {
    OnlyReturnsInsertedNone(ls, "\n");
    var idx := lineNum - 1;
    if idx < |ls| {
      if idx < -|ls| {
        return IndexError;
      }
      var line := ls[PyIndex(idx, |ls|)];
      if SendsResponse(line) && !StartsWith(Strip(line), "return") {
        var indent := Indent(line);
        if idx + 1 < |ls| && !Contains(ls[PyIndex(idx + 1, |ls|)], "return;") {
          InsertReturnKeeps(ls, ls, idx + 1, indent);
          return Continue(Insert(ls, idx + 1, ReturnStatement(indent, "\n")));
        }
      }
    }
    return Continue(ls);
  }

  /** One turn of the loop over the sorted numbers: visit `order[k]`. The
      lines stay the input with return statements inserted, one more at
      most, and, for positive numbers, the specification applied to one
      more visited number; an IndexError means a listed number lies below
      `-len(lines)`. */
  method Turn(ls: seq<string>, ghost lines: seq<string>, order: seq<int>, ghost lineNumbers: seq<int>, k: nat)
    returns (v: Visit)
    requires multiset(order) == multiset(lineNumbers) && SortedDescending(order) && k < |order|
    requires |lines| <= |ls| && OnlyReturnsInserted(lines, ls, "\n")
    ensures v.IndexError? ==> exists n :: n in lineNumbers && n <= -|lines|
    ensures v.Continue? ==> |ls| <= |v.lines| <= |ls| + 1 && OnlyReturnsInserted(lines, v.lines, "\n")
    ensures AllPositive(lineNumbers) && ls == FixedLines(lines, order[..k])
      ==> v == Continue(FixedLines(lines, order[..k + 1]))
  {
    var lineNum := order[k];
    NextVisit(order, lineNumbers, k);
    v := VisitLine(ls, lineNum);
    if v.Continue? {
      OnlyReturnsInsertedTrans(lines, ls, v.lines, "\n");
    }
    if AllPositive(lineNumbers) && ls == FixedLines(lines, order[..k]) {
      VisitStep(lines, order[..k], lineNum, ls);
    }
  }

  /** The loop over `sorted(line_numbers, reverse=True)`. */
  method FixFile(lines: seq<string>, lineNumbers: seq<int>) returns (r: Outcome)
    ensures AllPositive(lineNumbers) ==> r == Written(FixedLines(lines, lineNumbers))
    ensures r.Failed? ==> exists n :: n in lineNumbers && n <= -|lines|
    ensures r.Written? ==> |lines| <= |r.lines| <= |lines| + |lineNumbers|
    ensures r.Written? ==> OnlyReturnsInserted(lines, r.lines, "\n")
    ensures AllPositive(lineNumbers) ==> |r.lines| <= |lines| + |Distinct(lineNumbers)|
  {
    var order := SortDescending(lineNumbers);
    var ls := lines;
    var k := 0;
    OnlyReturnsInsertedNone(lines, "\n");
    NothingVisited(lines);
    while k < |order|
      invariant 0 <= k <= |order|
      invariant |lines| <= |ls| <= |lines| + k
      invariant OnlyReturnsInserted(lines, ls, "\n")
      invariant AllPositive(lineNumbers) ==> ls == FixedLines(lines, order[..k])
    {
      var v := Turn(ls, lines, order, lineNumbers, k);
      if v.IndexError? {
        return Failed;
      }
      ls := v.lines;
      k := k + 1;
    }
    assert order[..k] == order;
    FixedLinesSorted(lines, order, lineNumbers);
    r := Written(ls);
  }

  /** The number visited at turn `k`: one of the listed numbers, at most
      every number visited before it, and the last of those visited once
      the turn is over. */
  lemma NextVisit(order: seq<int>, lineNumbers: seq<int>, k: nat)
    requires multiset(order) == multiset(lineNumbers) && SortedDescending(order) && k < |order|
    ensures order[k] in lineNumbers
    ensures forall d :: d in order[..k] ==> d >= order[k]
    ensures order[..k + 1] == order[..k] + [order[k]]
  {
    Listed(order, lineNumbers, k);
    VisitedAtLeast(order, k);
  }

  /** Every number visited is one of the listed numbers. */
  lemma Listed(order: seq<int>, lineNumbers: seq<int>, k: nat)
    requires multiset(order) == multiset(lineNumbers) && k < |order|
    ensures order[k] in lineNumbers
  {
    assert order[k] in multiset(order);
  }

  /** Python's `insert` of a return statement inserts only a return
      statement. */
  lemma InsertReturnKeeps(lines: seq<string>, ls: seq<string>, i: int, indent: nat)
    requires OnlyReturnsInserted(lines, ls, "\n")
    ensures OnlyReturnsInserted(lines, Insert(ls, i, ReturnStatement(indent, "\n")), "\n")
  {
    OnlyReturnsInsertedAt(lines, ls, "\n", InsertPosition(i, |ls|), indent);
  }

  /** With no number visited, no line is marked. */
  lemma TargetsNone(lines: seq<string>, done: seq<int>)
    requires done == []
    ensures forall i :: 0 <= i < |lines| ==> !Targets(lines, done)[i]
  {
    TargetsAt(lines, done);
  }

  /** Before the loop the lines are the input, with nothing marked. */
  lemma NothingVisited(lines: seq<string>)
    ensures FixedLines(lines, []) == lines
  {
    TargetsNone(lines, []);
    ExpandUnmarked(lines, Targets(lines, []), "\n");
  }

  /** The marks depend only on which numbers were visited, not on their
      order or on how often each is listed. */
  lemma TargetsOrderFree(lines: seq<string>, a: seq<int>, b: seq<int>)
    requires forall x :: x in a <==> x in b
    ensures Targets(lines, a) == Targets(lines, b)
    ensures FixedLines(lines, a) == FixedLines(lines, b)
  {
    TargetsAt(lines, a);
    TargetsAt(lines, b);
  }

  /** The numbers sorted give the lines of the numbers as listed, with at
      most one line more per distinct number. */
  lemma FixedLinesSorted(lines: seq<string>, order: seq<int>, lineNumbers: seq<int>)
    requires multiset(order) == multiset(lineNumbers)
    ensures FixedLines(lines, order) == FixedLines(lines, lineNumbers)
    ensures |FixedLines(lines, lineNumbers)| <= |lines| + |Distinct(lineNumbers)|
  {
    SameElements(order, lineNumbers);
    TargetsOrderFree(lines, order, lineNumbers);
    TargetsCount(lines, lineNumbers);
  }

  /** A permutation holds the same numbers. */
  lemma SameElements(a: seq<int>, b: seq<int>)
    requires multiset(a) == multiset(b)
    ensures forall x :: x in a <==> x in b
  {
    forall x ensures x in a <==> x in b {
      assert x in a <==> x in multiset(a);
      assert x in b <==> x in multiset(b);
    }
  }

  /** Numbers are visited largest first: each is at most every number
      visited before it. */
  lemma VisitedAtLeast(order: seq<int>, k: nat)
    requires SortedDescending(order) && k < |order|
    ensures forall d :: d in order[..k] ==> d >= order[k]
  {
    forall d | d in order[..k] ensures d >= order[k] {
      var j :| 0 <= j < k && order[j] == d;
    }
  }

  /** Every marked line lies at or after the one a number no larger than
      any visited so far points at. */
  lemma TargetsFrom(lines: seq<string>, done: seq<int>, n: int)
    requires forall d :: d in done ==> d >= n
    ensures forall i :: 0 <= i < |lines| && Targets(lines, done)[i] ==> i >= n - 1
  {
    TargetsAt(lines, done);
  }

  /** Visiting one more number can only mark the line it points at, and
      marks it exactly when that line is eligible in the input. */
  lemma TargetsExtend(lines: seq<string>, done: seq<int>, n: int)
    ensures 0 <= n - 1 < |lines| ==>
      Targets(lines, done + [n]) == Targets(lines, done)[n - 1 := Eligible(lines, n - 1)]
    ensures !(0 <= n - 1 < |lines|) ==> Targets(lines, done + [n]) == Targets(lines, done)
  {
    var m, m' := Targets(lines, done), Targets(lines, done + [n]);
    TargetsAt(lines, done);
    TargetsAt(lines, done + [n]);
    if 0 <= n - 1 < |lines| {
      assert forall i :: 0 <= i < |lines| ==> m'[i] == m[n - 1 := Eligible(lines, n - 1)][i];
    } else {
      assert forall i :: 0 <= i < |lines| ==> m'[i] == m[i];
    }
  }

  /** A number past the last line marks nothing, and the lines are still
      the input, too short for the guards to hold. */
  lemma VisitPastEnd(lines: seq<string>, done: seq<int>, n: int, ls: seq<string>)
    requires n >= 1 && forall d :: d in done ==> d >= n
    requires ls == FixedLines(lines, done) && n - 1 >= |lines|
    ensures !Eligible(ls, n - 1) && ls == FixedLines(lines, done + [n])
  {
    TargetsFrom(lines, done, n);
    TargetsExtend(lines, done, n);
    ExpandUnmarked(lines, Targets(lines, done), "\n");
  }

  /** A number visited before whose line got its return statement marks
      nothing new. */
  lemma VisitAgainMarks(lines: seq<string>, done: seq<int>, n: int)
    requires 0 <= n - 1 < |lines| && Targets(lines, done)[n - 1]
    ensures Targets(lines, done + [n]) == Targets(lines, done)
  {
    TargetsExtend(lines, done, n);
    TargetsAt(lines, done);
    assert Targets(lines, done)[n - 1 := Eligible(lines, n - 1)] == Targets(lines, done);
  }

  /** A number visited before whose line got its return statement then
      finds `return;` on the next line now, and leaves the lines alone. */
  lemma VisitAgain(lines: seq<string>, done: seq<int>, n: int, ls: seq<string>)
    requires n >= 1 && forall d :: d in done ==> d >= n
    requires ls == FixedLines(lines, done) && n - 1 < |lines| && Targets(lines, done)[n - 1]
    ensures !Eligible(ls, n - 1) && ls == FixedLines(lines, done + [n])
  {
    var idx, m := n - 1, Targets(lines, done);
    VisitAgainMarks(lines, done, n);
    TargetsFrom(lines, done, n);
    CountTrueZero(m[..idx]);
    ExpandAt(lines, m, "\n", idx);
    assert ls[idx + 1] == ReturnStatement(Indent(lines[idx]), "\n");
    ReturnStatementText(Indent(lines[idx]), "\n");
  }

  /** Before the visit to a number not yet marked, nothing is marked up to
      its line, so the current lines agree with the input up to that line
      and on the next one, and the guards decide as they would on the
      input. */
  lemma VisitFirstGuards(lines: seq<string>, done: seq<int>, n: int, ls: seq<string>)
    requires n >= 1 && forall d :: d in done ==> d >= n
    requires ls == FixedLines(lines, done) && n - 1 < |lines| && !Targets(lines, done)[n - 1]
    ensures forall i :: 0 <= i <= n - 1 ==> !Targets(lines, done)[i]
    ensures ls[..n] == lines[..n]
    ensures Eligible(ls, n - 1) == Eligible(lines, n - 1)
  {
    var m := Targets(lines, done);
    TargetsFrom(lines, done, n);
    ExpandUnmarkedPrefix(lines, m, "\n", n);
    if n < |lines| {
      ExpandCons(lines[n..], m[n..], "\n");
      assert ls[n] == lines[n];
    } else {
      assert lines[n..] == [];
    }
  }

  /** The first visit to an eligible line inserts its return statement
      right after it, which marks exactly that line. */
  lemma VisitFirst(lines: seq<string>, done: seq<int>, n: int, ls: seq<string>)
    requires n >= 1 && forall d :: d in done ==> d >= n
    requires ls == FixedLines(lines, done) && n - 1 < |lines| && !Targets(lines, done)[n - 1]
    ensures Eligible(ls, n - 1) ==>
      Insert(ls, n, ReturnStatement(Indent(ls[n - 1]), "\n")) == FixedLines(lines, done + [n])
    ensures !Eligible(ls, n - 1) ==> ls == FixedLines(lines, done + [n])
  {
    var m := Targets(lines, done);
    VisitFirstGuards(lines, done, n, ls);
    TargetsExtend(lines, done, n);
    if Eligible(lines, n - 1) {
      ExpandMark(lines, m, "\n", n - 1);
      assert ls[n - 1] == lines[n - 1] by {
        assert ls[..n][n - 1] == lines[..n][n - 1];
      }
    } else {
      assert m[n - 1 := false] == m;
    }
  }

  /** One visit, proved against the specification: at a positive number
      no larger than any visited before, the guards on the current lines
      decide as they would on the input, and an insertion marks exactly
      the visited line. */
  lemma VisitStep(lines: seq<string>, done: seq<int>, n: int, ls: seq<string>)
    requires n >= 1 && forall d :: d in done ==> d >= n
    requires ls == FixedLines(lines, done)
    ensures Eligible(ls, n - 1) ==>
      Insert(ls, n, ReturnStatement(Indent(ls[n - 1]), "\n")) == FixedLines(lines, done + [n])
    ensures !Eligible(ls, n - 1) ==> ls == FixedLines(lines, done + [n])
  {
    if n - 1 >= |lines| {
      VisitPastEnd(lines, done, n, ls);
    } else if Targets(lines, done)[n - 1] {
      VisitAgain(lines, done, n, ls);
    } else {
      VisitFirst(lines, done, n, ls);
    }
  }

  /** Where line `i` of the input lands in the output, and that it is
      followed by the return statement at its indent exactly when it is
      listed and eligible; no other line is added after it. */
  lemma FixedLinesAt(lines: seq<string>, lineNumbers: seq<int>, i: nat)
    requires i < |lines|
    ensures var out, m := FixedLines(lines, lineNumbers), Targets(lines, lineNumbers);
      Position(m, i) < |out| && out[Position(m, i)] == lines[i] &&
      ((i + 1) in lineNumbers && Eligible(lines, i) ==>
         Position(m, i) + 1 < |out| && out[Position(m, i) + 1] == ReturnStatement(Indent(lines[i]), "\n")) &&
      (i + 1 < |lines| ==> Position(m, i + 1) == Position(m, i) + (if m[i] then 2 else 1))
  {
    TargetsAt(lines, lineNumbers);
    ExpandAt(lines, Targets(lines, lineNumbers), "\n", i);
    PositionStep(Targets(lines, lineNumbers), i);
  }

  /** The last line never gets a return statement: it has no next line. */
  lemma LastLineUntouched(lines: seq<string>, lineNumbers: seq<int>)
    requires lines != []
    ensures var out := FixedLines(lines, lineNumbers); out[|out| - 1] == lines[|lines| - 1]
  {
    var n := |lines| - 1;
    var m := Targets(lines, lineNumbers);
    TargetsAt(lines, lineNumbers);
    assert !m[n];
    ExpandAt(lines, m, "\n", n);
    assert m[..n + 1] == m;
  }

  /** Setting one mark adds at most one to the count. */
  lemma CountTrueUpdate(m: seq<bool>, j: nat, b: bool)
    requires j < |m|
    ensures CountTrue(m[j := b]) <= CountTrue(m) + 1
  {
    var m' := m[j := b];
    assert m == m[..j] + [m[j]] + m[j + 1..];
    assert m' == m[..j] + [b] + m[j + 1..];
    CountTrueAppend(m[..j] + [m[j]], m[j + 1..]);
    CountTrueAppend(m[..j], [m[j]]);
    CountTrueAppend(m[..j] + [b], m[j + 1..]);
    CountTrueAppend(m[..j], [b]);
    assert [m[j]][..0] == [] && [b][..0] == [];
  }

  /** The numbers listed, each once. */
  function Distinct(lineNumbers: seq<int>): set<int>
    decreases |lineNumbers|
  {
    if lineNumbers == [] then {}
    else Distinct(lineNumbers[..|lineNumbers| - 1]) + {lineNumbers[|lineNumbers| - 1]}
  }

  /** The distinct numbers are exactly the numbers listed. */
  lemma {:induction false} DistinctMembers(lineNumbers: seq<int>)
    ensures forall n :: n in Distinct(lineNumbers) <==> n in lineNumbers
    decreases |lineNumbers|
  {
    if lineNumbers != [] {
      var k := |lineNumbers| - 1;
      DistinctMembers(lineNumbers[..k]);
      assert lineNumbers == lineNumbers[..k] + [lineNumbers[k]];
    }
  }

  /** One more number adds one distinct number when it is new, and none
      when it is listed already. */
  lemma DistinctSnoc(front: seq<int>, n: int)
    ensures Distinct(front + [n]) == Distinct(front) + {n}
    ensures |Distinct(front + [n])| == |Distinct(front)| + (if n in front then 0 else 1)
  {
    assert (front + [n])[..|front|] == front;
    DistinctMembers(front);
    if n in front {
      assert Distinct(front) + {n} == Distinct(front);
    }
  }

  /** A sequence holds at most as many distinct numbers as it is long. */
  lemma {:induction false} DistinctAtMost(lineNumbers: seq<int>)
    ensures |Distinct(lineNumbers)| <= |lineNumbers|
    decreases |lineNumbers|
  {
    if lineNumbers == [] {
      assert Distinct(lineNumbers) == {};
    } else {
      var k := |lineNumbers| - 1;
      assert lineNumbers == lineNumbers[..k] + [lineNumbers[k]];
      DistinctSnoc(lineNumbers[..k], lineNumbers[k]);
      DistinctAtMost(lineNumbers[..k]);
    }
  }

  /** Visiting one more number marks at most one more line, and none when
      the number was visited already. */
  lemma TargetsCountStep(lines: seq<string>, front: seq<int>, n: int)
    ensures CountTrue(Targets(lines, front + [n])) <= CountTrue(Targets(lines, front)) + (if n in front then 0 else 1)
  {
    var m, after := Targets(lines, front), Targets(lines, front + [n]);
    TargetsExtend(lines, front, n);
    if 0 <= n - 1 < |lines| {
      var b := Eligible(lines, n - 1);
      assert after == m[n - 1 := b];
      if n in front {
        TargetsAt(lines, front);
        assert m[n - 1] == b;
        assert after == m;
      } else {
        CountTrueUpdate(m, n - 1, b);
      }
    } else {
      assert after == m;
    }
  }

  /** No more return statements are added than distinct numbers are
      listed: a number listed twice adds at most one. */
  lemma {:induction false} TargetsCount(lines: seq<string>, lineNumbers: seq<int>)
    ensures CountTrue(Targets(lines, lineNumbers)) <= |Distinct(lineNumbers)| <= |lineNumbers|
    ensures |FixedLines(lines, lineNumbers)| <= |lines| + |Distinct(lineNumbers)|
    decreases |lineNumbers|
  {
    DistinctAtMost(lineNumbers);
    if lineNumbers == [] {
      TargetsNone(lines, lineNumbers);
      CountTrueZero(Targets(lines, lineNumbers));
      assert Distinct(lineNumbers) == {};
    } else {
      var k := |lineNumbers| - 1;
      var n := lineNumbers[k];
      var front := lineNumbers[..k];
      assert lineNumbers == front + [n];
      DistinctSnoc(front, n);
      TargetsCount(lines, front);
      TargetsCountStep(lines, front, n);
    }
  }
}
