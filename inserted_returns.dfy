/** The common shape of the three line-insertion passes: walk the lines in
    order, copy each one, and after some of them add a line made of the copied
    line's indent and `return;`. Which lines get one is a sequence of marks,
    one per line; each script decides the marks by its own guard. */
module InsertedReturns {
  import opened PyBuiltins

  /** `' ' * indent + 'return;' + eol`; add-returns.py and fix-returns.py
      use the end of line `\n`, fix-return-types.py (which rejoins the lines
      with `\n`) none. */
  function ReturnStatement(indent: nat, eol: string): string {
    Spaces(indent) + "return;" + eol
  }

  /** How many lines are marked. */
  function CountTrue(marks: seq<bool>): (n: nat)
    ensures n <= |marks|
  {
    if marks == [] then 0
    else CountTrue(marks[..|marks| - 1]) + (if marks[|marks| - 1] then 1 else 0)
  }

  /** No line is marked exactly when the count is zero. */
  lemma {:induction false} CountTrueZero(marks: seq<bool>)
    ensures CountTrue(marks) == 0 <==> forall i :: 0 <= i < |marks| ==> !marks[i]
    decreases |marks|
  {
    if marks != [] {
      var n := |marks| - 1;
      CountTrueZero(marks[..n]);
      assert forall i :: 0 <= i < n ==> marks[..n][i] == marks[i];
    }
  }

  /** The lines, each followed by its return statement when it is marked. */
  function Expand(lines: seq<string>, marks: seq<bool>, eol: string): (r: seq<string>)
    requires |marks| == |lines|
    ensures |r| == |lines| + CountTrue(marks)
  {
    if lines == [] then []
    else
      var n := |lines| - 1;
      Expand(lines[..n], marks[..n], eol) + [lines[n]]
        + (if marks[n] then [ReturnStatement(Indent(lines[n]), eol)] else [])
  }

  /** Where line `i` of the input lands in the output: after every earlier
      line and every return statement inserted after one of them. */
  function Position(marks: seq<bool>, i: nat): nat
    requires i <= |marks|
  {
    i + CountTrue(marks[..i])
  }

  /** Counting marks distributes over concatenation. */
  lemma {:induction false} CountTrueAppend(a: seq<bool>, b: seq<bool>)
    ensures CountTrue(a + b) == CountTrue(a) + CountTrue(b)
    decreases |b|
  {
    if b != [] {
      var n := |b| - 1;
      assert (a + b)[..|a + b| - 1] == a + b[..n];
      assert (a + b)[|a + b| - 1] == b[n];
      CountTrueAppend(a, b[..n]);
      assert CountTrue(b) == CountTrue(b[..n]) + (if b[n] then 1 else 0);
      assert CountTrue(a + b) == CountTrue(a + b[..n]) + (if b[n] then 1 else 0);
    } else {
      assert a + b == a;
    }
  }

  /** The next line lands one place further on, or two when a return
      statement was inserted in between. */
  lemma PositionStep(marks: seq<bool>, i: nat)
    requires i < |marks|
    ensures Position(marks, i + 1) == Position(marks, i) + 1 + (if marks[i] then 1 else 0)
  {
    assert marks[..i + 1][..i] == marks[..i];
  }

  /** Expanding distributes over concatenation. */
  lemma {:induction false} ExpandAppend(a: seq<string>, ma: seq<bool>, b: seq<string>, mb: seq<bool>, eol: string)
    requires |ma| == |a| && |mb| == |b|
    ensures Expand(a + b, ma + mb, eol) == Expand(a, ma, eol) + Expand(b, mb, eol)
    decreases |b|
  {
    if b != [] {
      var n := |b| - 1;
      assert (a + b)[..|a + b| - 1] == a + b[..n];
      assert (ma + mb)[..|ma + mb| - 1] == ma + mb[..n];
      ExpandAppend(a, ma, b[..n], mb[..n], eol);
    } else {
      assert a + b == a && ma + mb == ma;
    }
  }

  /** The front view of the definition: the first line, its return statement
      if it is marked, then the rest. */
  lemma ExpandCons(lines: seq<string>, marks: seq<bool>, eol: string)
    requires |marks| == |lines| && lines != []
    ensures Expand(lines, marks, eol)
      == [lines[0]] + (if marks[0] then [ReturnStatement(Indent(lines[0]), eol)] else [])
         + Expand(lines[1..], marks[1..], eol)
  {
    ExpandAppend(lines[..1], marks[..1], lines[1..], marks[1..], eol);
    assert lines[..1] + lines[1..] == lines;
    assert marks[..1] + marks[1..] == marks;
    assert lines[..1][..0] == [] && marks[..1][..0] == [];
  }

  /** Line `i` of the input sits at `Position(marks, i)` of the output, and
      when it is marked its return statement sits right after it. Together
      with PositionStep this says the output is the input, in order, with
      exactly the marked return statements added. */
  lemma {:induction false} ExpandAt(lines: seq<string>, marks: seq<bool>, eol: string, i: nat)
    requires |marks| == |lines| && i < |lines|
    ensures Position(marks, i) < |Expand(lines, marks, eol)|
    ensures Expand(lines, marks, eol)[Position(marks, i)] == lines[i]
    ensures marks[i] ==>
              Position(marks, i) + 1 < |Expand(lines, marks, eol)| &&
              Expand(lines, marks, eol)[Position(marks, i) + 1] == ReturnStatement(Indent(lines[i]), eol)
    decreases |lines|
  {
    var n := |lines| - 1;
    var front := Expand(lines[..n], marks[..n], eol);
    var e := Expand(lines, marks, eol);
    assert e[..|front|] == front;
    if i < n {
      assert marks[..n][..i] == marks[..i];
      assert Position(marks[..n], i) == Position(marks, i);
      ExpandAt(lines[..n], marks[..n], eol, i);
    } else {
      assert marks[..n] == marks[..i];
      assert Position(marks, i) == |front|;
    }
  }

  /** ExpandAt and PositionStep together: where line `i` lands, what
      follows it, and where the next line lands. */
  lemma ExpandAtNext(lines: seq<string>, marks: seq<bool>, eol: string, i: nat)
    requires |marks| == |lines| && i < |lines|
    ensures var out, p := Expand(lines, marks, eol), Position(marks, i);
      p < |out| && out[p] == lines[i] &&
      (marks[i] ==> p + 1 < |out| && out[p + 1] == ReturnStatement(Indent(lines[i]), eol)) &&
      (i + 1 < |lines| ==> Position(marks, i + 1) == p + (if marks[i] then 2 else 1))
  {
    ExpandAt(lines, marks, eol, i);
    PositionStep(marks, i);
  }

  /** The definition read on prefixes: expanding one more line appends
      that line and, when it is marked, its return statement. */
  lemma ExpandPrefixStep(lines: seq<string>, marks: seq<bool>, eol: string, i: nat)
    requires |marks| == |lines| && i < |lines|
    ensures Expand(lines[..i + 1], marks[..i + 1], eol)
      == Expand(lines[..i], marks[..i], eol) + [lines[i]]
         + (if marks[i] then [ReturnStatement(Indent(lines[i]), eol)] else [])
  {
    assert lines[..i + 1][..i] == lines[..i];
    assert marks[..i + 1][..i] == marks[..i];
  }

  /** A character other than a space or a letter of `return;`, found in
      no line and not in the end of line, is found in no line of the
      output. */
  lemma {:induction false} ExpandCharOut(lines: seq<string>, marks: seq<bool>, eol: string, c: char)
    requires |marks| == |lines| && c != ' ' && c !in "return;" && c !in eol
    requires forall i :: 0 <= i < |lines| ==> c !in lines[i]
    ensures forall j :: 0 <= j < |Expand(lines, marks, eol)| ==> c !in Expand(lines, marks, eol)[j]
    decreases |lines|
  {
    if lines != [] {
      var n := |lines| - 1;
      ExpandCharOut(lines[..n], marks[..n], eol, c);
      ReturnStatementChar(Indent(lines[n]), eol, c);
      assert forall i :: 0 <= i < n ==> lines[..n][i] == lines[i];
    }
  }

  /** With nothing marked, nothing is inserted. */
  lemma {:induction false} ExpandUnmarked(lines: seq<string>, marks: seq<bool>, eol: string)
    requires |marks| == |lines| && forall i :: 0 <= i < |marks| ==> !marks[i]
    ensures Expand(lines, marks, eol) == lines
    decreases |lines|
  {
    if lines != [] {
      var n := |lines| - 1;
      ExpandUnmarked(lines[..n], marks[..n], eol);
      assert lines == lines[..n] + [lines[n]];
    }
  }

  /** While no line is marked, the output starts with the input. */
  lemma ExpandUnmarkedPrefix(lines: seq<string>, marks: seq<bool>, eol: string, k: nat)
    requires |marks| == |lines| && k <= |lines|
    requires forall i :: 0 <= i < k ==> !marks[i]
    ensures Expand(lines, marks, eol) == lines[..k] + Expand(lines[k..], marks[k..], eol)
  {
    assert lines == lines[..k] + lines[k..];
    assert marks == marks[..k] + marks[k..];
    ExpandAppend(lines[..k], marks[..k], lines[k..], marks[k..], eol);
    ExpandUnmarked(lines[..k], marks[..k], eol);
  }

  /** With only the last line marked, the output is the input and the
      last line's return statement. */
  lemma ExpandOnlyLastMarked(lines: seq<string>, marks: seq<bool>, eol: string)
    requires |marks| == |lines| && lines != []
    requires forall i :: 0 <= i < |lines| - 1 ==> !marks[i]
    requires marks[|lines| - 1]
    ensures Expand(lines, marks, eol) == lines + [ReturnStatement(Indent(lines[|lines| - 1]), eol)]
  {
    var n := |lines| - 1;
    ExpandUnmarked(lines[..n], marks[..n], eol);
    assert lines[..n] + [lines[n]] == lines;
  }

  /** Marking line `k`, when no line up to `k` is marked yet, inserts its
      return statement right after line `k` of the current output, which is
      still line `k` of the input. */
  lemma ExpandMark(lines: seq<string>, marks: seq<bool>, eol: string, k: nat)
    requires |marks| == |lines| && k < |lines|
    requires forall i :: 0 <= i <= k ==> !marks[i]
    ensures Expand(lines, marks[k := true], eol)
      == Expand(lines, marks, eol)[..k + 1] + [ReturnStatement(Indent(lines[k]), eol)]
         + Expand(lines, marks, eol)[k + 1..]
  {
    var marked := marks[k := true];
    var front, back := lines[..k + 1], lines[k + 1..];
    var rest := Expand(back, marks[k + 1..], eol);
    assert lines == front + back;
    assert marked == marked[..k + 1] + marks[k + 1..];
    ExpandAppend(front, marked[..k + 1], back, marks[k + 1..], eol);
    ExpandOnlyLastMarked(front, marked[..k + 1], eol);
    ExpandUnmarkedPrefix(lines, marks, eol, k + 1);
    var e := Expand(lines, marks, eol);
    assert e == front + rest;
    assert e[..k + 1] == front && e[k + 1..] == rest;
  }

  /** A return statement is recognisable: it is its own indent in spaces
      followed by `return;` and the end of line. */
  predicate IsReturnStatement(s: string, eol: string) {
    s == ReturnStatement(Indent(s), eol)
  }

  /** The indent of a return statement is the indent it was built with. */
  lemma ReturnStatementIndent(n: nat, eol: string)
    ensures Indent(ReturnStatement(n, eol)) == n
    ensures IsReturnStatement(ReturnStatement(n, eol), eol)
  {
    assert ReturnStatement(n, eol) == Spaces(n) + ("return;" + eol);
    IndentOfSpaces(n, "return;" + eol);
  }

  /** A return statement holds `return;`. */
  lemma ReturnStatementHoldsReturn(n: nat, eol: string)
    ensures Contains(ReturnStatement(n, eol), "return;")
  {
    var t := "return;" + eol;
    assert ReturnStatement(n, eol) == Spaces(n) + t;
    assert t[..7] == "return;";
    assert t[0..] == t;
    SpacesThenContains(n, t, "return;");
  }

  /** A return statement holds a character that is neither a space nor a
      letter of `return;` only where its end of line does. */
  lemma ReturnStatementChar(n: nat, eol: string, c: char)
    requires c != ' ' && c !in "return;"
    ensures c in ReturnStatement(n, eol) <==> c in eol
  {
    assert ReturnStatement(n, eol) == Spaces(n) + ("return;" + eol);
    assert c !in Spaces(n);
  }

  /** A return statement holds `return;` and no `.` or `\n` other than
      those of its end of line. */
  lemma ReturnStatementText(n: nat, eol: string)
    ensures Contains(ReturnStatement(n, eol), "return;")
    ensures '.' !in eol ==> '.' !in ReturnStatement(n, eol)
    ensures '\n' !in eol ==> '\n' !in ReturnStatement(n, eol)
  {
    ReturnStatementHoldsReturn(n, eol);
    ReturnStatementChar(n, eol, '.');
    ReturnStatementChar(n, eol, '\n');
  }

  /** `out` is `lines` with return statements inserted anywhere: every
      line of `lines` is still there, in order, and every other line of
      `out` is a return statement. */
  predicate OnlyReturnsInserted(lines: seq<string>, out: seq<string>, eol: string)
    decreases |out|
  {
    if out == [] then lines == []
    else
      (lines != [] && out[0] == lines[0] && OnlyReturnsInserted(lines[1..], out[1..], eol))
      || (IsReturnStatement(out[0], eol) && OnlyReturnsInserted(lines, out[1..], eol))
  }

  /** Inserting nothing inserts only return statements. */
  lemma {:induction false} OnlyReturnsInsertedNone(lines: seq<string>, eol: string)
    ensures OnlyReturnsInserted(lines, lines, eol)
    decreases |lines|
  {
    if lines != [] {
      OnlyReturnsInsertedNone(lines[1..], eol);
    }
  }

  /** Inserting return statements in two rounds inserts only return
      statements. */
  lemma {:induction false} OnlyReturnsInsertedTrans(a: seq<string>, b: seq<string>, c: seq<string>, eol: string)
    requires OnlyReturnsInserted(a, b, eol) && OnlyReturnsInserted(b, c, eol)
    ensures OnlyReturnsInserted(a, c, eol)
    decreases |c|
  {
    if c != [] {
      if IsReturnStatement(c[0], eol) && OnlyReturnsInserted(b, c[1..], eol) {
        OnlyReturnsInsertedTrans(a, b, c[1..], eol);
      } else if a != [] && b[0] == a[0] && OnlyReturnsInserted(a[1..], b[1..], eol) {
        OnlyReturnsInsertedTrans(a[1..], b[1..], c[1..], eol);
      } else {
        OnlyReturnsInsertedTrans(a, b[1..], c[1..], eol);
      }
    }
  }

  /** Inserting one more return statement anywhere keeps the relation. */
  lemma {:induction false} OnlyReturnsInsertedAt(lines: seq<string>, out: seq<string>, eol: string, i: nat, n: nat)
    requires OnlyReturnsInserted(lines, out, eol) && i <= |out|
    ensures OnlyReturnsInserted(lines, out[..i] + [ReturnStatement(n, eol)] + out[i..], eol)
    decreases i
  {
    var x := ReturnStatement(n, eol);
    var out' := out[..i] + [x] + out[i..];
    if i == 0 {
      ReturnStatementIndent(n, eol);
      assert out'[1..] == out;
    } else {
      assert out'[0] == out[0];
      assert out'[1..] == out[1..][..i - 1] + [x] + out[1..][i - 1..];
      if lines != [] && out[0] == lines[0] && OnlyReturnsInserted(lines[1..], out[1..], eol) {
        OnlyReturnsInsertedAt(lines[1..], out[1..], eol, i - 1, n);
      } else {
        OnlyReturnsInsertedAt(lines, out[1..], eol, i - 1, n);
      }
    }
  }

  /** Expanding inserts only return statements. */
  lemma {:induction false} ExpandOnlyInserts(lines: seq<string>, marks: seq<bool>, eol: string)
    requires |marks| == |lines|
    ensures OnlyReturnsInserted(lines, Expand(lines, marks, eol), eol)
    decreases |lines|
  {
    if lines != [] {
      ExpandCons(lines, marks, eol);
      ExpandOnlyInserts(lines[1..], marks[1..], eol);
      var rest := Expand(lines[1..], marks[1..], eol);
      if marks[0] {
        ReturnStatementIndent(Indent(lines[0]), eol);
        assert Expand(lines, marks, eol)[1..] == [ReturnStatement(Indent(lines[0]), eol)] + rest;
        assert ([ReturnStatement(Indent(lines[0]), eol)] + rest)[1..] == rest;
      } else {
        assert Expand(lines, marks, eol)[1..] == rest;
      }
    }
  }
}
