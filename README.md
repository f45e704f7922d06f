# Route-handler maintenance scripts, modelled in Dafny

The backend of the repository carries five small Python maintenance scripts.
Each rewrites the TypeScript route files under `src/routes/` to silence one
TypeScript error in Express async route handlers ("Not all code paths return
a value"). The model covers what each script does to the text of one file:

- `fix-route-types.py` adds the return type `: Promise<void>` to every header
  `async (req: Request, res: Response) =>`.
- `remove-return-types.py` takes that return type off again.
- `add-returns.py` adds a line `return;` after every line that sends a JSON
  response without returning and ends its statement on that line.
- `fix-returns.py` adds a line `return;` after the lines whose numbers a build
  log listed. It visits the numbers largest first, so that an insertion never
  shifts a line still to come.
- `fix-return-types.py` removes the return type, rewrites `return res.…` as
  `res.…`, and adds the line `return;` after such a line when the next line
  asks for one.

The modules follow that structure:

- `PyBuiltins` holds the Python string and list operations the scripts use:
  `in`, `count`, `startswith`, `endswith`, `strip`, `lstrip`, `split`,
  `join`, negative indexing, `list.insert` and `sorted(reverse=True)`.
- `LiteralReplace` is replacement of a literal pattern. Both `re.sub` with a
  pattern free of metacharacters and `str.replace` scan from the left and
  replace non-overlapping occurrences.
- `RouteHeaders` holds the two header literals, with the substitutions that
  add and remove the annotation.
- `InsertedReturns` defines `Expand`: every line kept in order, with an
  indented `return;` line after each marked one. All three line passes are
  stated through it.
- There is one module per script: `FixRouteTypes`, `RemoveReturnTypes`,
  `AddReturns`, `FixReturns`, `FixReturnTypes`.

File contents are values:

- A file read whole is a `string`.
- A file read with `readlines` is a sequence of lines, each ending in its own
  end of line. That is why the line `return;` those scripts insert carries
  `"\n"`.
- `fix-return-types.py` splits on `\n` and joins the lines again. Its
  `return;` line has no end of line of its own.

Each script's decision to write the file, or to report "no changes", is the
outcome datatype its function returns.

## Model

| member | source | states |
|---|---|---|
| PyBuiltins.LStrip | backend/add-returns.py:40 | `lstrip` removes exactly the leading whitespace: what is left is a suffix, removed characters are all whitespace, and the rest starts with a non-space |
| PyBuiltins.RStrip | backend/add-returns.py:34 | `rstrip` removes exactly the trailing whitespace |
| PyBuiltins.Indent | backend/add-returns.py:40 | `len(line) - len(line.lstrip())` counts the leading whitespace: all of it is whitespace, and the character after it is not |
| PyBuiltins.Spaces | backend/add-returns.py:43 | `' ' * indent` is `indent` spaces |
| PyBuiltins.Split | backend/fix-return-types.py:41 | `split('\n')` yields at least one piece, and no piece holds the separator |
| PyBuiltins.JoinSplit | backend/fix-return-types.py:41-63 | joining the pieces of a split gives back the text |
| PyBuiltins.SplitJoin | backend/fix-return-types.py:41-63 | splitting a join of separator-free pieces gives back the pieces |
| PyBuiltins.JoinInjective | backend/fix-return-types.py:63-65 | two joins of separator-free pieces are equal exactly when the pieces are |
| PyBuiltins.PyIndex | backend/fix-returns.py:31 | `lines[idx]` with a negative `idx` counts from the end |
| PyBuiltins.InsertPosition | backend/fix-returns.py:41 | `list.insert` puts an in-range position in place, counts a negative one from the end, and clamps the rest |
| PyBuiltins.Insert | backend/fix-returns.py:41 | `list.insert` adds exactly one element, at the clamped position, and shifts the rest by one |
| PyBuiltins.SortDescending | backend/fix-returns.py:28 | `sorted(line_numbers, reverse=True)` is in descending order and is a permutation of the numbers |
| PyBuiltins.InsertDescending | backend/fix-returns.py:28 | inserting one number into a descending sequence keeps it descending and adds exactly that number |
| PyBuiltins.Contains | backend/add-returns.py:35 | `p in s`: some suffix of `s` starts with `p` |
| PyBuiltins.Count | backend/fix-route-types.py:40 | `s.count(p)`: non-overlapping occurrences, counted from the left, skipping past each one found |
| PyBuiltins.StartsWith | backend/add-returns.py:36 | `s.startswith(p)`: `p` is a prefix of `s` |
| PyBuiltins.EndsWith | backend/add-returns.py:37 | `s.endswith(p)`: `p` is a suffix of `s` |
| PyBuiltins.Strip | backend/add-returns.py:34 | `strip()`: `rstrip` after `lstrip` |
| PyBuiltins.Join | backend/fix-return-types.py:63 | `'\n'.join(lines)`: the pieces with one separator between neighbours |
| PyBuiltins.CountPositive | backend/fix-route-types.py:40 | `content.count(p)` is positive exactly when `p in content` |
| LiteralReplace.ReplaceAll | backend/fix-route-types.py:33 | `re.sub` with a literal pattern, as also at remove-return-types.py:30 and fix-return-types.py:29, and `str.replace` at fix-return-types.py:49: scanning from the left, each occurrence is replaced and scanning resumes after it |
| LiteralReplace.ReplaceAbsent | backend/fix-route-types.py:33 | a substitution whose pattern does not occur leaves the text alone |
| LiteralReplace.ReplaceLength | backend/fix-route-types.py:33 | each replaced occurrence changes the length by the difference of the two lengths |
| LiteralReplace.ReplaceChanges | backend/fix-route-types.py:33-35 | a substitution with a replacement of a different length changes the text exactly when the pattern occurs |
| LiteralReplace.ReplaceLeavesNoPattern | backend/fix-route-types.py:33 | when neither literal can overlap the other, no occurrence of the pattern survives the substitution |
| LiteralReplace.ReplaceInverse | backend/remove-return-types.py:27-30 | substituting back undoes a substitution, provided the text did not already hold the replacement |
| LiteralReplace.ReplaceIdempotent | backend/fix-route-types.py:33 | a second substitution changes nothing |
| LiteralReplace.ReplaceKeepsPrefix | backend/fix-return-types.py:49 | a prefix without the pattern's first character is kept as it is |
| LiteralReplace.CountOfInnerPiece | backend/remove-return-types.py:36 | a text holds a piece of a pattern at least as often as the whole pattern |
| RouteHeaders.HeaderShape | backend/fix-route-types.py:30-31 | the annotated header is the unannotated one with `: Promise<void>` at offset 35, after the parameter list |
| RouteHeaders.HeaderFacts | backend/remove-return-types.py:27-28 | the header literals cannot overlap themselves or each other |
| RouteHeaders.Annotate | backend/fix-route-types.py:30-33 | after adding the annotation no unannotated header is left; the text grows by 15 characters per header; it is unchanged exactly when it held no header |
| RouteHeaders.Deannotate | backend/remove-return-types.py:27-30 | after removing the annotation no annotated header is left; the text shrinks by 15 characters per header; it is unchanged exactly when it held no annotated header |
| RouteHeaders.AnnotateIdempotent | backend/fix-route-types.py:30-33 | adding the annotation twice is adding it once |
| RouteHeaders.DeannotateIdempotent | backend/remove-return-types.py:27-30 | removing the annotation twice is removing it once |
| RouteHeaders.DeannotateAnnotate | backend/remove-return-types.py:27-30 | removing the annotation undoes adding it, for a text without annotated headers of its own |
| RouteHeaders.AnnotateDeannotate | backend/fix-route-types.py:30-33 | adding the annotation undoes removing it, for a text without unannotated headers of its own |
| InsertedReturns.Expand | backend/add-returns.py:29-46 | the output has one line per input line plus one per marked line |
| InsertedReturns.ExpandAppend | backend/add-returns.py:29-46 | the pass over two runs of lines is the pass over each, one after the other |
| InsertedReturns.ExpandAt | backend/add-returns.py:30-43 | line `i` lands at its position (`i` plus the marks before it), followed by the return statement at its indent when it is marked |
| InsertedReturns.ExpandUnmarked | backend/add-returns.py:29-46 | without marks the pass changes nothing |
| InsertedReturns.ExpandMark | backend/fix-returns.py:41 | marking line `k`, when no line up to `k` is marked, is `list.insert` of its return statement right after line `k` of the current output |
| InsertedReturns.ExpandOnlyInserts | backend/add-returns.py:29-46 | the output is the input with only indented `return;` lines inserted |
| InsertedReturns.ReturnStatementIndent | backend/add-returns.py:43 | the inserted line has the indent it was built with, and is a return statement |
| InsertedReturns.ReturnStatementText | backend/fix-returns.py:39 | the inserted line holds `return;`, and no `.` or line break that its end of line lacks |
| InsertedReturns.OnlyReturnsInsertedTrans | backend/fix-returns.py:28-41 | two rounds of inserting return statements are one round |
| InsertedReturns.OnlyReturnsInsertedAt | backend/fix-returns.py:41 | one more inserted return statement anywhere keeps the shape |
| InsertedReturns.CountTrueZero | backend/add-returns.py:48 | the count of marks is zero exactly when no line is marked |
| FixRouteTypes.FixRouteHandlers | backend/fix-route-types.py:27-45 | the file is left alone exactly when it holds no unannotated header; otherwise it is written with every header annotated and none left unannotated, the reported count is the number of unannotated headers in the text as read, which is positive, and the text grows by 15 characters per counted header |
| FixRouteTypes.SecondRunChangesNothing | backend/fix-route-types.py:27-45 | a second run on the written file changes nothing |
| FixRouteTypes.NoHeaderNoWrite | backend/fix-route-types.py:35-45 | a file without an unannotated header is not written |
| RemoveReturnTypes.FixFile | backend/remove-return-types.py:26-41 | the file is left alone exactly when it holds no annotated header; otherwise it is written with every annotation removed and none left, 15 characters shorter per header; the reported count is the number of `: Promise<void>` anywhere in the text as read, and so at least the number of headers rewritten |
| RemoveReturnTypes.SecondRunChangesNothing | backend/remove-return-types.py:26-41 | a second run on the written file changes nothing |
| RemoveReturnTypes.UndoesFixRouteTypes | backend/remove-return-types.py:26-41 | run on what fix-route-types.py wrote, the script gives back the original text |
| RemoveReturnTypes.UndoneByFixRouteTypes | backend/fix-route-types.py:27-45 | fix-route-types.py, run on what this script wrote, gives back the original text |
| RemoveReturnTypes.ReportedCountCanExceedRemovals | backend/remove-return-types.py:36 | a stray `: Promise<void>` before one annotated header makes the script report two removals for the one it makes |
| AddReturns.SendsJson | backend/add-returns.py:35 | `'res.json(' in line or 'res.status(' in line and '.json(' in line`, grouped as Python groups it |
| AddReturns.NeedsReturn | backend/add-returns.py:35-37 | the guard: sends JSON, stripped line does not start with `return`, stripped line ends with `);` |
| AddReturns.AddReturns | backend/add-returns.py:29-46 | `new_lines`: every line, followed by `' ' * indent + 'return;\n'` when it meets the guard |
| AddReturns.Marks | backend/add-returns.py:34-37 | one guard per line |
| AddReturns.MarksAt | backend/add-returns.py:34-37 | each mark is that line's own guard |
| AddReturns.FixFile | backend/add-returns.py:25-55 | the file is written exactly when some line meets the guard; then with the lines and inserted returns of the line pass, and the number of changes is the number of guarded lines |
| AddReturns.PrecedenceIrrelevant | backend/add-returns.py:35 | `A or B and C` as Python groups it agrees with `(A or B) and C` here |
| AddReturns.RemoveInsertedAddReturns | backend/add-returns.py:29-46 | deleting the inserted lines gives back the input |
| AddReturns.AddReturnsAt | backend/add-returns.py:30-43 | every input line is kept at its position, followed by `return;` at its own indent exactly when it meets the guard |
| AddReturns.ReturnStatementNeedsNoReturn | backend/add-returns.py:35-43 | an inserted `return;` line never meets the guard itself |
| AddReturns.SecondPassCount | backend/add-returns.py:29-46 | a second run finds exactly as many lines to fix as the first |
| AddReturns.NotIdempotent | backend/add-returns.py:29-55 | a second run on a changed file adds the same number of lines again, so the script is not idempotent |
| FixReturns.FixesArePositive | backend/fix-returns.py:11-19 | every listed line number is at least 1 |
| FixReturns.SendsResponse | backend/fix-returns.py:33 | `'res.json(' in line or 'res.status(' in line` |
| FixReturns.Eligible | backend/fix-returns.py:30-39 | the guards at an index: a next line exists, the line sends a response, does not start with `return` once stripped, and the next line holds no `return;` |
| FixReturns.FixedLines | backend/fix-returns.py:28-41 | the lines written back for positive numbers: every input line, followed by `return;` at its indent when it is listed and eligible in the input |
| FixReturns.Targets | backend/fix-returns.py:28-41 | one mark per input line |
| FixReturns.TargetsAt | backend/fix-returns.py:28-41 | a line is marked exactly when its 1-based number is listed and the guards hold on the input |
| FixReturns.VisitLine | backend/fix-returns.py:29-41 | a number at most `-len(lines)` raises an IndexError, since the index is the number less one; other numbers insert at most one return statement; at a positive number the script inserts `return;` at the line's indent right after it exactly when the guards hold |
| FixReturns.Turn | backend/fix-returns.py:28-41 | one turn of the loop keeps the input's lines and adds at most one return statement; with positive numbers it applies the specification to one more visited number |
| FixReturns.FixFile | backend/fix-returns.py:21-47 | with positive line numbers the file is written with the line pass over the listed, eligible lines, and gains at most one line per distinct number; an error needs a number at most `-len(lines)`; a written file is the input with at most one `return;` line inserted per listed number |
| FixReturns.NextVisit | backend/fix-returns.py:28 | each number visited is listed, and is no larger than any visited before |
| FixReturns.TargetsOrderFree | backend/fix-returns.py:28 | two lists holding the same numbers, in any order and any number of times, give the same result |
| FixReturns.TargetsExtend | backend/fix-returns.py:29-41 | visiting one more number marks its line exactly when the guards hold on the input |
| FixReturns.VisitAgain | backend/fix-returns.py:39 | a number visited twice finds `return;` on the next line the second time and changes nothing |
| FixReturns.VisitPastEnd | backend/fix-returns.py:30-39 | a number past the end of the file changes nothing |
| FixReturns.VisitStep | backend/fix-returns.py:29-41 | visiting numbers largest first, the guards on the current lines decide as they would on the input, and an insertion marks exactly the visited line |
| FixReturns.FixedLinesAt | backend/fix-returns.py:29-41 | input line `i` is kept; `return;` at its indent follows it when it is listed and eligible |
| FixReturns.LastLineUntouched | backend/fix-returns.py:39 | nothing is ever inserted after the last line |
| FixReturns.TargetsCountStep | backend/fix-returns.py:29-41 | visiting one more number marks at most one more line, and none when that number was visited already |
| FixReturns.FixedLinesSorted | backend/fix-returns.py:28 | the sorted numbers give the same lines as the numbers as listed, with at most one line more per distinct number |
| FixReturns.TargetsCount | backend/fix-returns.py:28-41 | no more lines are inserted than distinct numbers are listed, and so no more than numbers are listed |
| FixReturnTypes.ReturnsResponse | backend/fix-return-types.py:47 | `'return res.' in line and ('.json(' in line or '.status(' in line)` |
| FixReturnTypes.Unreturn | backend/fix-return-types.py:49 | `line.replace('return res.', 'res.')` |
| FixReturnTypes.RewriteLine | backend/fix-return-types.py:47-60 | the line appended: rewritten when it returns a response, as it was otherwise |
| FixReturnTypes.WantsReturn | backend/fix-return-types.py:57 | `next_line.startswith('}') or (next_line and not next_line.startswith('//'))` |
| FixReturnTypes.NeedsReturn | backend/fix-return-types.py:47-58 | a `return;` follows line `i`: it returns a response, a next line exists, and the stripped next line asks for one |
| FixReturnTypes.LinePass | backend/fix-return-types.py:44-61 | `new_lines`: every line rewritten, followed by `return;` at the original line's indent when it needs one |
| FixReturnTypes.NewContent | backend/fix-return-types.py:29-63 | the header substitution, the split on `\n`, the line pass and the join with `\n` |
| FixReturnTypes.WantsReturnSimplified | backend/fix-return-types.py:57 | the next-line test is "the stripped next line is neither empty nor a `//` comment"; the `}` case is subsumed |
| FixReturnTypes.RewrittenAt | backend/fix-return-types.py:47-50 | a line that returns a response loses its `return`, and every other line is kept |
| FixReturnTypes.MarkAt | backend/fix-return-types.py:47-58 | a line is marked exactly when it returns a response, has a next line, and that stripped line asks for a return |
| FixReturnTypes.UnreturnKeepsIndent | backend/fix-return-types.py:49-52 | the rewritten line starts with exactly the leading whitespace of the original line, so the indentation measured on the original line is that of the rewritten line |
| FixReturnTypes.UnreturnShortens | backend/fix-return-types.py:49 | every `return res.` is rewritten: the line changes, losing seven characters per occurrence |
| FixReturnTypes.LinePassAt | backend/fix-return-types.py:44-61 | each line lands rewritten at its position; `return;` at its indent follows it exactly when it returns a response and the stripped next line is neither empty nor a comment |
| FixReturnTypes.LinePassShape | backend/fix-return-types.py:44-61 | the pass keeps every rewritten line in order and adds only `return;` lines; lines that return nothing are unchanged |
| FixReturnTypes.LastLineGetsNoReturn | backend/fix-return-types.py:54 | the last line never gets a `return;` after it |
| FixReturnTypes.RewriteStep | backend/fix-return-types.py:45-60 | the body for one line yields the rewritten line, and `return;` after it when it is needed |
| FixReturnTypes.PassBelowExpand | backend/fix-return-types.py:44-61 | the first `i` turns of the loop produce the pass over the first `i` lines |
| FixReturnTypes.RewriteLines | backend/fix-return-types.py:41-61 | the loop builds exactly the line pass |
| FixReturnTypes.FixRouteHandlers | backend/fix-return-types.py:26-72 | as written: the file is written exactly when the new text differs from the text after the header substitution, and then with the new text |
| FixReturnTypes.FixRouteHandlersAgainstOriginal | backend/fix-return-types.py:26-72 | corrected: the file is written exactly when the new text differs from the text as read |
| FixReturnTypes.NoNewlineInLines | backend/fix-return-types.py:41-63 | no line holds a line break before or after the pass |
| FixReturnTypes.LinePassChanges | backend/fix-return-types.py:44-61 | the pass changes the lines exactly when some line returns a response |
| FixReturnTypes.WrittenExactlyWhenSomeLineReturns | backend/fix-return-types.py:63-65 | the script as written writes the file exactly when some line returns a response |
| FixReturnTypes.HeaderOnlyChangeNotWritten | backend/fix-return-types.py:29-65 | a file holding only an annotated header is rewritten by the substitution, yet the script as written does not write it |
| FixReturnTypes.HeaderOnlyChangeWritten | backend/fix-return-types.py:29-65 | the corrected comparison writes a file whose only change is a removed annotation |
| FixReturnTypes.AgainstOriginalWithoutHeader | backend/fix-return-types.py:63-65 | without annotated headers the corrected script writes exactly when some line returns a response |

## Left out

- File I/O, `os.path.exists`, the per-script file lists, `main` and the
  printed messages are left out. Each model takes the file's text or lines
  as its input; the printed counts are returned as outcome fields.
- Exceptions other than the IndexError of `fix-returns.py` are left out.
  Those are I/O errors and decoding errors.
- `readlines` and the end-of-line characters are not modelled. The model
  takes the lines as given. The inserted `return;` line of the `readlines`
  scripts ends in `"\n"`.
- Whitespace is Python's ASCII whitespace. The Unicode spaces that `str.strip`
  also removes are left out, because the route files are ASCII.
- `fix-return-types.py` compiles `pattern2` and defines `replace_return`, but
  never uses either (lines 33-38). They are not modelled because they have no
  effect.
- FixReturns.FixFile: the full specification is proved only when every
  listed number is at least 1, as every number in the table is. For
  non-positive numbers, which Python reads as counting from the end, it states
  less. It proves that such numbers only insert return statements, at most
  one each, and that only a number at most `-len(lines)` gives the error.
  The bound of one inserted line per distinct number is also proved only
  for positive numbers.
- FixReturns.FixesArePositive states every table number is positive, but not
  the number of entries; the seven file names are part of `const Fixes`.

## Findings

| source | as written | input that shows it | evidently intended | confidence | as-written member | corrected member |
|---|---|---|---|---|---|---|
| backend/fix-return-types.py:29-65 | `content` is rebound to the text after the `Promise<void>` substitution, and the write test compares the new text with that, so a file whose only change is the removed return type is reported "No changes needed" and not written | a file holding just `async (req: Request, res: Response): Promise<void> =>` | written back without the return type, which the docstring names as the script's first job; compare with the text as read | medium, not executed | FixReturnTypes.FixRouteHandlers, FixReturnTypes.HeaderOnlyChangeNotWritten | FixReturnTypes.FixRouteHandlersAgainstOriginal, FixReturnTypes.HeaderOnlyChangeWritten |
