/** backend/fix-return-types.py, `fix_route_handlers` without the file
    I/O: drop the `: Promise<void>` annotation from every route-handler
    header, then go through the text line by line. A line that returns a
    response has every `return res.` turned into `res.`, and is followed by
    a line `return;` at its indent when the next line, stripped, holds a
    statement or a closing brace. The file is written back only when the
    line pass changed the text. */
module FixReturnTypes {
  import opened PyBuiltins
  import opened LiteralReplace
  import opened RouteHeaders
  import opened InsertedReturns

  /** `'return res.' in line and ('.json(' in line or '.status(' in line)` */
  predicate ReturnsResponse(line: string) {
    Contains(line, "return res.") && (Contains(line, ".json(") || Contains(line, ".status("))
  }

  /** `line.replace('return res.', 'res.')` */
  function Unreturn(line: string): string {
    ReplaceAll(line, "return res.", "res.")
  }

  /** What the pass appends for a line, before any `return;`: the line
      rewritten when it returns a response, the line itself otherwise. */
  function RewriteLine(line: string): string {
    if ReturnsResponse(line) then Unreturn(line) else line
  }

  /** The test on the stripped next line:
      `next_line.startswith('}') or (next_line and not next_line.startswith('//'))`. */
  predicate WantsReturn(next: string) {
    StartsWith(next, "}") || (next != [] && !StartsWith(next, "//"))
  }

  /** The closing-brace test adds nothing: a next line wants a `return;`
      before it exactly when it is not empty and not a `//` comment. */
  lemma WantsReturnSimplified(next: string)
    ensures WantsReturn(next) <==> next != [] && !StartsWith(next, "//")
  {
    if StartsWith(next, "}") {
      assert next[..1][0] == '}';
    }
  }

  /** Whether a `return;` line follows line `i`: it returns a response,
      a next line exists, and that next line, stripped, wants one. */
  predicate NeedsReturn(lines: seq<string>, i: nat)
    requires i < |lines|
  {
    ReturnsResponse(lines[i]) && i + 1 < |lines| && WantsReturn(Strip(lines[i + 1]))
  }

  /** Every line rewritten. */
  function Rewritten(lines: seq<string>): (r: seq<string>)
    ensures |r| == |lines|
  {
    if lines == [] then [] else Rewritten(lines[..|lines| - 1]) + [RewriteLine(lines[|lines| - 1])]
  }

  /** Line `i` of the rewritten lines is line `i` rewritten. */
  lemma {:induction false} RewrittenAt(lines: seq<string>, i: nat)
    requires i < |lines|
    ensures Rewritten(lines)[i] == RewriteLine(lines[i])
    decreases |lines|
  {
    var n := |lines| - 1;
    if i < n {
      RewrittenAt(lines[..n], i);
    }
  }

  /** Whether a `return;` line follows each line. */
  function Marks(lines: seq<string>): (m: seq<bool>)
    ensures |m| == |lines|
  {
    MarksBelow(lines, |lines|)
  }

  /** The marks of the first `k` lines; each looks at the line after it. */
  function MarksBelow(lines: seq<string>, k: nat): (m: seq<bool>)
    requires k <= |lines|
    ensures |m| == k
  {
    if k == 0 then [] else MarksBelow(lines, k - 1) + [NeedsReturn(lines, k - 1)]
  }

  /** Mark `i` is the test of line `i`. */
  lemma {:induction false} MarksBelowAt(lines: seq<string>, k: nat, i: nat)
    requires i < k <= |lines|
    ensures MarksBelow(lines, k)[i] == NeedsReturn(lines, i)
    decreases k
  {
    if i < k - 1 {
      MarksBelowAt(lines, k - 1, i);
    }
  }

  /** Mark `i` is the test of line `i`. */
  lemma MarkAt(lines: seq<string>, i: nat)
    requires i < |lines|
    ensures Marks(lines)[i] == NeedsReturn(lines, i)
  {
    MarksBelowAt(lines, |lines|, i);
  }

  /** `new_lines` after the loop: each line rewritten, followed by
      `' ' * indent + 'return;'` when it needs one. The return statement
      has no end of line of its own: the lines are joined with `\n`. */
  function LinePass(lines: seq<string>): seq<string> {
    Expand(Rewritten(lines), Marks(lines), "")
  }

  /** Rewriting `return res.` as `res.` never touches the leading
      whitespace: the rewritten line starts with the same whitespace, so its
      indent is the indent the script measures on the original line. */
  lemma UnreturnKeepsIndent(line: string)
    ensures Indent(Unreturn(line)) == Indent(line)
    ensures Indent(line) <= |Unreturn(line)| && Unreturn(line)[..Indent(line)] == line[..Indent(line)]
  {
    var p, q := "return res.", "res.";
    var n := Indent(line);
    var w, t := line[..n], line[n..];
    assert line == w + t;
    assert 'r' !in w by {
      assert forall i :: 0 <= i < |w| ==> IsSpace(w[i]);
    }
    ReplaceKeepsPrefix(w, t, p, q);
    var x := ReplaceAll(t, p, q);
    assert x == [] || !IsSpace(x[0]) by {
      if t != [] && !StartsWith(t, p) {
        assert x == [t[0]] + ReplaceAll(t[1..], p, q);
        assert t[0] == line[n];
      }
    }
    LStripAfterSpaces(w, x);
    assert Unreturn(line) == w + x;
  }

  /** A rewritten line keeps the leading whitespace of the original line. */
  lemma RewriteLineKeepsIndent(line: string)
    ensures Indent(RewriteLine(line)) == Indent(line)
    ensures Indent(line) <= |RewriteLine(line)| && RewriteLine(line)[..Indent(line)] == line[..Indent(line)]
  {
    UnreturnKeepsIndent(line);
  }

  /** Every `return res.` of a line that returns a response is rewritten:
      the line changes and loses seven characters per occurrence. */
  lemma UnreturnShortens(line: string)
    requires ReturnsResponse(line)
    ensures Count(line, "return res.") >= 1
    ensures |Unreturn(line)| == |line| - 7 * Count(line, "return res.")
    ensures Unreturn(line) != line
  {
    CountPositive(line, "return res.");
    ReplaceLength(line, "return res.", "res.");
  }

  /** One more turn of the loop: the pass over the first `i + 1` lines. */
  lemma LinePassStep(lines: seq<string>, i: nat)
    requires i < |lines|
    ensures var r, m := Rewritten(lines), Marks(lines);
      Expand(r[..i + 1], m[..i + 1], "")
        == Expand(r[..i], m[..i], "") + [RewriteLine(lines[i])]
           + (if NeedsReturn(lines, i) then [ReturnStatement(Indent(lines[i]), "")] else [])
  {
    var r, m := Rewritten(lines), Marks(lines);
    ExpandPrefixStep(r, m, "", i);
    RewrittenAt(lines, i);
    MarkAt(lines, i);
    RewriteLineKeepsIndent(lines[i]);
  }

  /** Line `i` lands at `Position(Marks(lines), i)`, rewritten; the line
      after it is `return;` at line `i`'s own indent exactly when line `i`
      returns a response and the stripped next line is neither empty nor a
      `//` comment; otherwise the next original line follows directly. */
  lemma LinePassAt(lines: seq<string>, i: nat)
    requires i < |lines|
    ensures var out, p := LinePass(lines), Position(Marks(lines), i);
      var wanted := ReturnsResponse(lines[i]) && i + 1 < |lines|
        && Strip(lines[i + 1]) != [] && !StartsWith(Strip(lines[i + 1]), "//");
      p < |out| && out[p] == RewriteLine(lines[i]) &&
      (wanted ==> p + 1 < |out| && out[p + 1] == ReturnStatement(Indent(lines[i]), "")) &&
      (i + 1 < |lines| ==> Position(Marks(lines), i + 1) == p + (if wanted then 2 else 1))
  {
    var r, m := Rewritten(lines), Marks(lines);
    ExpandAtNext(r, m, "", i);
    RewrittenAt(lines, i);
    MarkAt(lines, i);
    RewriteLineKeepsIndent(lines[i]);
    if i + 1 < |lines| {
      WantsReturnSimplified(Strip(lines[i + 1]));
    }
    var b := NeedsReturn(lines, i);
    assert m[i] == b;
  }

  /** The pass keeps every line, rewritten, in order, and adds only
      `return;` lines, one per marked line; a line that returns no
      response is kept as it was. */
  lemma LinePassShape(lines: seq<string>)
    ensures OnlyReturnsInserted(Rewritten(lines), LinePass(lines), "")
    ensures |LinePass(lines)| == |lines| + CountTrue(Marks(lines))
    ensures forall i :: 0 <= i < |lines| && !ReturnsResponse(lines[i]) ==> Rewritten(lines)[i] == lines[i]
  {
    ExpandOnlyInserts(Rewritten(lines), Marks(lines), "");
    forall i | 0 <= i < |lines| && !ReturnsResponse(lines[i]) ensures Rewritten(lines)[i] == lines[i] {
      RewrittenAt(lines, i);
    }
  }

  /** The last line never gets a `return;` after it: it has no next line. */
  lemma LastLineGetsNoReturn(lines: seq<string>)
    requires lines != []
    ensures var out := LinePass(lines);
      out != [] && out[|out| - 1] == RewriteLine(lines[|lines| - 1])
  {
    var n := |lines| - 1;
    var r, m := Rewritten(lines), Marks(lines);
    MarkAt(lines, n);
    RewrittenAt(lines, n);
    ExpandAt(r, m, "", n);
    assert m[..n + 1] == m;
  }

  /** The body of the loop for line `i`: the line, rewritten when it
      returns a response, and after it the `return;` line when the stripped
      next line asks for one. */
  method RewriteStep(lines: seq<string>, i: nat) returns (step: seq<string>)
    requires i < |lines|
    ensures step == [RewriteLine(lines[i])]
      + (if NeedsReturn(lines, i) then [ReturnStatement(Indent(lines[i]), "")] else [])
  {
    var line := lines[i];
    if Contains(line, "return res.") && (Contains(line, ".json(") || Contains(line, ".status(")) {
      var newLine := ReplaceAll(line, "return res.", "res.");
      step := [newLine];
      var indent := Indent(line);
      if i + 1 < |lines| {
        var nextLine := Strip(lines[i + 1]);
        if StartsWith(nextLine, "}") || (nextLine != [] && !StartsWith(nextLine, "//")) {
          step := step + [ReturnStatement(indent, "")];
        }
      }
    } else {
      step := [line];
    }
  }

  /** The loop's `new_lines` after its first `i` turns. */
  function PassBelow(lines: seq<string>, i: nat): seq<string>
    requires i <= |lines|
  {
    if i == 0 then []
    else (PassBelow(lines, i - 1) + [RewriteLine(lines[i - 1])]
      + if NeedsReturn(lines, i - 1) then [ReturnStatement(Indent(lines[i - 1]), "")] else [])
  }

  /** The first `i` turns of the loop produce the pass over the first `i`
      lines. */
  lemma {:induction false} PassBelowExpand(lines: seq<string>, i: nat)
    requires i <= |lines|
    ensures PassBelow(lines, i) == Expand(Rewritten(lines)[..i], Marks(lines)[..i], "")
  {
    if i > 0 {
      PassBelowExpand(lines, i - 1);
      LinePassStep(lines, i - 1);
    }
  }

  /** The `while i < len(lines)` loop. */
  method RewriteLines(lines: seq<string>) returns (newLines: seq<string>)
    ensures newLines == LinePass(lines)
  {
    newLines := [];
    var i := 0;
    while i < |lines|
      invariant 0 <= i <= |lines|
      invariant newLines == PassBelow(lines, i)
    {
      var step := RewriteStep(lines, i);
      newLines := newLines + step;
      i := i + 1;
    }
    PassBelowExpand(lines, i);
    assert Rewritten(lines)[..i] == Rewritten(lines) && Marks(lines)[..i] == Marks(lines);
  }

  /** What becomes of one file: written back with the new text, or left
      alone ("No changes needed"). */
  datatype Outcome = Written(text: string) | NoChanges

  /** The text the script builds: the header substitution, then the line
      pass over the substituted text split on `\n`, joined with `\n`. */
  function NewContent(content: string): string {
    Join(LinePass(Split(Deannotate(content), '\n')), '\n')
  }

  /** The script as written: the new text is compared with the text
      after the header substitution. */
  method FixRouteHandlers(content: string) returns (r: Outcome)
    ensures r.Written? <==> NewContent(content) != Deannotate(content)
    ensures r.Written? ==> r.text == NewContent(content)
  {
    var text := Deannotate(content);
    var lines := Split(text, '\n');
    var newLines := RewriteLines(lines);
    var newContent := Join(newLines, '\n');
    if newContent != text {
      r := Written(newContent);
    } else {
      r := NoChanges;
    }
  }

  /** The comparison the script evidently intends: the new text against
      the text as read, so that removing an annotation alone is written. */
  method FixRouteHandlersAgainstOriginal(content: string) returns (r: Outcome)
    ensures r.Written? <==> NewContent(content) != content
    ensures r.Written? ==> r.text == NewContent(content)
  {
    var original := content;
    var text := Deannotate(content);
    var lines := Split(text, '\n');
    var newLines := RewriteLines(lines);
    var newContent := Join(newLines, '\n');
    if newContent != original {
      r := Written(newContent);
    } else {
      r := NoChanges;
    }
  }

  /** No line holds `\n`, before or after the pass. */
  lemma NoNewlineInLines(lines: seq<string>)
    requires forall i :: 0 <= i < |lines| ==> '\n' !in lines[i]
    ensures forall i :: 0 <= i < |Rewritten(lines)| ==> '\n' !in Rewritten(lines)[i]
    ensures forall j :: 0 <= j < |LinePass(lines)| ==> '\n' !in LinePass(lines)[j]
  {
    forall i | 0 <= i < |lines| ensures '\n' !in Rewritten(lines)[i] {
      RewrittenAt(lines, i);
      ReplaceCharOut(lines[i], "return res.", "res.", '\n');
    }
    ExpandCharOut(Rewritten(lines), Marks(lines), "", '\n');
  }

  /** The pass changes the lines exactly when some line returns a
      response. */
  lemma LinePassChanges(lines: seq<string>)
    ensures LinePass(lines) != lines <==> exists i :: 0 <= i < |lines| && ReturnsResponse(lines[i])
  {
    var r, m := Rewritten(lines), Marks(lines);
    if exists i :: 0 <= i < |lines| && ReturnsResponse(lines[i]) {
      var i :| 0 <= i < |lines| && ReturnsResponse(lines[i]);
      CountTrueZero(m);
      if CountTrue(m) == 0 {
        ExpandUnmarked(r, m, "");
        RewrittenAt(lines, i);
        UnreturnShortens(lines[i]);
        assert r[i] != lines[i];
      }
    } else {
      forall i | 0 <= i < |lines| ensures r[i] == lines[i] && !m[i] {
        RewrittenAt(lines, i);
        MarkAt(lines, i);
      }
      assert r == lines;
      ExpandUnmarked(r, m, "");
    }
  }

  /** Splitting on `\n` and joining back is the identity, so the new text
      differs from the substituted text exactly when some line of it
      returns a response: only then is the file written. */
  lemma WrittenExactlyWhenSomeLineReturns(content: string)
    ensures var lines := Split(Deannotate(content), '\n');
      (NewContent(content) != Deannotate(content))
      <==> (exists i :: 0 <= i < |lines| && ReturnsResponse(lines[i]))
  {
    var text := Deannotate(content);
    var lines := Split(text, '\n');
    JoinSplit(text, '\n');
    NoNewlineInLines(lines);
    JoinInjective(LinePass(lines), lines, '\n');
    LinePassChanges(lines);
  }

  /** A file whose only route-handler header is annotated, and which
      holds nothing else, has its header rewritten by the substitution,
      but the line pass finds nothing to change, so the script as written
      compares equal texts and does not write the file: the annotation
      stays. */
  lemma HeaderOnlyChangeNotWritten()
    ensures Deannotate(Annotated) == Unannotated != Annotated
    ensures NewContent(Annotated) == Deannotate(Annotated)
  {
    DeannotateHeader();
    HeaderIsOneQuietLine();
    WrittenExactlyWhenSomeLineReturns(Annotated);
  }

  /** The substitution turns the annotated header into the unannotated
      one. */
  lemma DeannotateHeader()
    ensures Deannotate(Annotated) == Unannotated != Annotated
  {
    HeaderShape();
    assert Annotated == Annotated + [];
    ReplaceHead(Annotated, Unannotated, []);
  }

  /** The unannotated header is a single line, and it returns no response:
      it holds no `.` at all. */
  lemma HeaderIsOneQuietLine()
    ensures Split(Unannotated, '\n') == [Unannotated]
    ensures !ReturnsResponse(Unannotated)
  {
    assert '\n' !in Unannotated && '.' !in Unannotated;
    SplitNoSeparator(Unannotated, '\n');
    if Contains(Unannotated, "return res.") {
      ContainsChar(Unannotated, "return res.", '.');
    }
  }

  /** Compared against the text as read, a file with an annotated header
      is written even when no line returns a response: the new text is
      the substituted text, which differs from the original. */
  lemma HeaderOnlyChangeWritten(content: string)
    requires Contains(content, Annotated)
    requires forall i :: 0 <= i < |Split(Deannotate(content), '\n')| ==> !ReturnsResponse(Split(Deannotate(content), '\n')[i])
    ensures NewContent(content) == Deannotate(content) != content
  {
    WrittenExactlyWhenSomeLineReturns(content);
  }

  /** Without an annotated header the two comparisons agree: the corrected
      script writes the file exactly when some line returns a response. */
  lemma AgainstOriginalWithoutHeader(content: string)
    requires !Contains(content, Annotated)
    ensures var lines := Split(content, '\n');
      (NewContent(content) != content) <==> (exists i :: 0 <= i < |lines| && ReturnsResponse(lines[i]))
  {
    WrittenExactlyWhenSomeLineReturns(content);
  }
}
