/** backend/add-returns.py, `fix_file` without the file I/O: after every
    line that sends a JSON response without returning, and ends its
    statement on that line, add a line `return;` at the same indent; write
    the file back only when at least one line was added. */
module AddReturns {
  import opened PyBuiltins
  import opened InsertedReturns

  /** `'res.json(' in line or 'res.status(' in line and '.json(' in line`,
      which Python reads as `A or (B and C)`. */
  predicate SendsJson(line: string) {
    Contains(line, "res.json(") || (Contains(line, "res.status(") && Contains(line, ".json("))
  }

  /** The script's guard: the line sends JSON, does not start with
      `return` once stripped, and ends with `);` once stripped. */
  predicate NeedsReturn(line: string) {
    SendsJson(line) && !StartsWith(Strip(line), "return") && EndsWith(Strip(line), ");")
  }

  /** The guard of every line, in order. */
  function Marks(lines: seq<string>): (m: seq<bool>)
    ensures |m| == |lines|
  {
    if lines == [] then [] else Marks(lines[..|lines| - 1]) + [NeedsReturn(lines[|lines| - 1])]
  }

  /** Each mark is the guard of its own line. */
  lemma {:induction false} MarksAt(lines: seq<string>)
    ensures forall i :: 0 <= i < |lines| ==> Marks(lines)[i] == NeedsReturn(lines[i])
    decreases |lines|
  {
    if lines != [] {
      var n := |lines| - 1;
      MarksAt(lines[..n]);
      assert forall i :: 0 <= i < n ==> lines[..n][i] == lines[i];
    }
  }

  /** The mark of line `i` is its guard. */
  lemma {:induction false} MarkAt(lines: seq<string>, i: nat)
    requires i < |lines|
    ensures Marks(lines)[i] == NeedsReturn(lines[i])
    decreases |lines|
  {
    var n := |lines| - 1;
    if i < n {
      MarkAt(lines[..n], i);
    }
  }

  /** `new_lines` after the loop: every line, followed by
      `' ' * indent + 'return;\n'` when it meets the guard. */
  function AddReturns(lines: seq<string>): seq<string> {
    Expand(lines, Marks(lines), "\n")
  }

  /** What becomes of one file: written back with `new_lines` and
      `changes`, or left alone ("No changes needed"). */
  datatype Outcome = Written(lines: seq<string>, changes: nat) | NoChanges

  /** The `while i < len(lines)` loop and the `changes > 0` test. */
  method FixFile(lines: seq<string>) returns (r: Outcome)
    ensures r.Written? <==> exists i :: 0 <= i < |lines| && NeedsReturn(lines[i])
    ensures r.Written? ==> r.lines == AddReturns(lines) && r.changes == CountTrue(Marks(lines))
    ensures r.Written? ==> |r.lines| == |lines| + r.changes
  {
    var newLines: seq<string> := [];
    var i := 0;
    var changes := 0;
    while i < |lines|
      invariant 0 <= i <= |lines|
      invariant newLines == AddReturns(lines[..i])
      invariant changes == CountTrue(Marks(lines[..i]))
    {
      var line := lines[i];
      newLines := newLines + [line];
      var stripped := Strip(line);
      if SendsJson(line) && !StartsWith(stripped, "return") && EndsWith(stripped, ");") {
        var indent := Indent(line);
        newLines := newLines + [ReturnStatement(indent, "\n")];
        changes := changes + 1;
      }
      AddReturnsPrefixStep(lines, i);
      i := i + 1;
    }
    assert lines[..i] == lines;
    SomeLineMarked(lines);
    if changes > 0 {
      r := Written(newLines, changes);
    } else {
      r := NoChanges;
    }
  }

  /** One more turn of the loop: the pass over one more line of the
      input, and the count of one more guard. */
  lemma AddReturnsPrefixStep(lines: seq<string>, i: nat)
    requires i < |lines|
    ensures AddReturns(lines[..i + 1]) == AddReturns(lines[..i]) + [lines[i]]
      + (if NeedsReturn(lines[i]) then [ReturnStatement(Indent(lines[i]), "\n")] else [])
    ensures CountTrue(Marks(lines[..i + 1])) == CountTrue(Marks(lines[..i])) + (if NeedsReturn(lines[i]) then 1 else 0)
  {
    AddReturnsSnoc(lines[..i + 1]);
    MarksCountSnoc(lines[..i + 1]);
    assert lines[..i + 1][..i] == lines[..i];
  }

  /** Some line meets the guard exactly when the count of marks is
      positive. */
  lemma SomeLineMarked(lines: seq<string>)
    ensures CountTrue(Marks(lines)) > 0 <==> exists i :: 0 <= i < |lines| && NeedsReturn(lines[i])
  {
    MarksAt(lines);
    CountTrueZero(Marks(lines));
  }

  /** Python's precedence does not matter here: `A or (B and C)` and
      `(A or B) and C` agree, because a line holding `res.json(` also holds
      `.json(`. */
  lemma PrecedenceIrrelevant(line: string)
    ensures SendsJson(line)
      <==> (Contains(line, "res.json(") || Contains(line, "res.status(")) && Contains(line, ".json(")
  {
    if Contains(line, "res.json(") {
      ContainsInner(line, "res.json(", ".json(", 3);
    }
  }

  /** Deleting the inserted lines: keep a line, and skip the line after it
      when it meets the guard. */
  function RemoveInserted(out: seq<string>): seq<string>
    decreases |out|
  {
    if out == [] then []
    else if NeedsReturn(out[0]) && |out| >= 2 then [out[0]] + RemoveInserted(out[2..])
    else [out[0]] + RemoveInserted(out[1..])
  }

  /** Deleting the inserted lines gives back the input: the pass only
      inserts, and keeps every original line in order. */
  lemma {:induction false} RemoveInsertedAddReturns(lines: seq<string>)
    ensures RemoveInserted(AddReturns(lines)) == lines
    decreases |lines|
  {
    if lines != [] {
      var m := Marks(lines);
      ExpandCons(lines, m, "\n");
      assert lines == [lines[0]] + lines[1..];
      MarksAppend([lines[0]], lines[1..]);
      assert Marks([lines[0]]) == [NeedsReturn(lines[0])] by {
        assert [lines[0]][..0] == [];
      }
      RemoveInsertedAddReturns(lines[1..]);
      var out := AddReturns(lines);
      assert out[0] == lines[0];
      if m[0] {
        assert out[2..] == AddReturns(lines[1..]);
      } else {
        assert out[1..] == AddReturns(lines[1..]);
      }
    }
  }

  /** Line `i` lands at `Position(Marks(lines), i)`, and it is followed by
      the return statement at its indent exactly when it meets the guard:
      the next original line lands one place further on otherwise. */
  lemma AddReturnsAt(lines: seq<string>, i: nat)
    requires i < |lines|
    ensures var out, p := AddReturns(lines), Position(Marks(lines), i);
      p < |out| && out[p] == lines[i] &&
      (NeedsReturn(lines[i]) ==> p + 1 < |out| && out[p + 1] == ReturnStatement(Indent(lines[i]), "\n")) &&
      (i + 1 < |lines| ==> Position(Marks(lines), i + 1) == p + (if NeedsReturn(lines[i]) then 2 else 1))
  {
    var m := Marks(lines);
    ExpandAtNext(lines, m, "\n", i);
    MarkAt(lines, i);
    var out, p := Expand(lines, m, "\n"), Position(m, i);
    var rs := ReturnStatement(Indent(lines[i]), "\n");
    if NeedsReturn(lines[i]) {
      assert m[i];
      assert p + 1 < |out| && out[p + 1] == rs;
    }
  }

  /** An inserted `return;` line never meets the guard itself: it holds no
      `.` at all. */
  lemma ReturnStatementNeedsNoReturn(n: nat)
    ensures !NeedsReturn(ReturnStatement(n, "\n"))
  {
    ReturnStatementText(n, "\n");
    assert '.' in "res.json(" && '.' in "res.status(";
    if Contains(ReturnStatement(n, "\n"), "res.json(") {
      ContainsChar(ReturnStatement(n, "\n"), "res.json(", '.');
    }
    if Contains(ReturnStatement(n, "\n"), "res.status(") {
      ContainsChar(ReturnStatement(n, "\n"), "res.status(", '.');
    }
  }

  /** The guards of two runs of lines, one after the other. */
  lemma {:induction false} MarksAppend(a: seq<string>, b: seq<string>)
    ensures Marks(a + b) == Marks(a) + Marks(b)
    decreases |b|
  {
    if b == [] {
      assert a + b == a;
    } else {
      var n := |b| - 1;
      assert (a + b)[..|a + b| - 1] == a + b[..n];
      MarksAppend(a, b[..n]);
    }
  }

  /** A line followed by what the pass inserts after it is marked once
      when the line meets the guard, and not at all otherwise. */
  lemma StepCount(line: string)
    ensures var step := [line] + (if NeedsReturn(line) then [ReturnStatement(Indent(line), "\n")] else []);
      CountTrue(Marks(step)) == if NeedsReturn(line) then 1 else 0
  {
    var rs := ReturnStatement(Indent(line), "\n");
    assert Marks([line]) == [NeedsReturn(line)] by {
      assert [line][..0] == [];
    }
    if NeedsReturn(line) {
      ReturnStatementNeedsNoReturn(Indent(line));
      assert [line, rs][..1] == [line];
      assert Marks([line, rs]) == [true, false];
    }
  }

  /** The definition read from the end: the pass over all but the last
      line, then the last line and what is inserted after it. */
  lemma AddReturnsSnoc(lines: seq<string>)
    requires lines != []
    ensures var n := |lines| - 1;
      AddReturns(lines) == AddReturns(lines[..n]) + [lines[n]]
        + (if NeedsReturn(lines[n]) then [ReturnStatement(Indent(lines[n]), "\n")] else [])
  {
  }

  /** The guards counted from the end: those of all but the last line,
      and the last line's own. */
  lemma MarksCountSnoc(lines: seq<string>)
    requires lines != []
    ensures var n := |lines| - 1;
      CountTrue(Marks(lines)) == CountTrue(Marks(lines[..n])) + (if NeedsReturn(lines[n]) then 1 else 0)
  {
    var n := |lines| - 1;
    var m := Marks(lines);
    assert m == Marks(lines[..n]) + [NeedsReturn(lines[n])];
    assert m[..n] == Marks(lines[..n]);
  }

  /** A second pass finds the same lines and marks none of the inserted
      ones, so it inserts as many again. */
  lemma {:induction false} SecondPassCount(lines: seq<string>)
    ensures CountTrue(Marks(AddReturns(lines))) == CountTrue(Marks(lines))
    decreases |lines|
  {
    if lines != [] {
      var n := |lines| - 1;
      var x := lines[n];
      var front := AddReturns(lines[..n]);
      var extra := if NeedsReturn(x) then [ReturnStatement(Indent(x), "\n")] else [];
      var step := [x] + extra;
      AddReturnsSnoc(lines);
      assert AddReturns(lines) == front + step;
      SecondPassCount(lines[..n]);
      MarksAppend(front, step);
      CountTrueAppend(Marks(front), Marks(step));
      StepCount(x);
      MarksCountSnoc(lines);
    }
  }

  /** The pass is not idempotent: whenever it changes a file, running it on
      its own output adds the same number of lines again. */
  lemma NotIdempotent(lines: seq<string>)
    ensures |AddReturns(AddReturns(lines))| == |lines| + 2 * CountTrue(Marks(lines))
    ensures CountTrue(Marks(lines)) > 0 ==> AddReturns(AddReturns(lines)) != AddReturns(lines)
  {
    SecondPassCount(lines);
  }
}
