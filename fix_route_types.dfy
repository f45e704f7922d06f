/** backend/fix-route-types.py, `fix_route_handlers` without the file I/O:
    give every `async (req: Request, res: Response) =>` header the explicit
    return type `: Promise<void>`, and write the file back, reporting how
    many headers were fixed, only when that changed the text. */
module FixRouteTypes {
  import opened PyBuiltins
  import opened RouteHeaders

  /** What becomes of one file: written back with the new text and the
      reported count, or left alone ("No changes needed"). */
  datatype Outcome = Written(text: string, count: nat) | NoChanges

  function FixRouteHandlers(content: string): (r: Outcome)
    ensures r.NoChanges? <==> !Contains(content, Unannotated)
    ensures r.Written? ==> r.text == Annotate(content) && r.text != content
    ensures r.Written? ==> !Contains(r.text, Unannotated)
    ensures r.Written? ==> r.count == Count(content, Unannotated)
    ensures r.Written? ==> r.count >= 1 && |r.text| == |content| + |PromiseVoid| * r.count
  {
    CountPositive(content, Unannotated);
    var newContent := Annotate(content);
    if newContent != content then Written(newContent, Count(content, Unannotated))
    else NoChanges
  }

  /** A file the script has just fixed needs no change on a second run. */
  lemma SecondRunChangesNothing(content: string)
    requires FixRouteHandlers(content).Written?
    ensures FixRouteHandlers(FixRouteHandlers(content).text) == NoChanges
  {
  }

  /** A file without a single unannotated header is never written. */
  lemma NoHeaderNoWrite(content: string)
    requires !Contains(content, Unannotated)
    ensures FixRouteHandlers(content) == NoChanges
    ensures Annotate(content) == content
  {
  }
}
