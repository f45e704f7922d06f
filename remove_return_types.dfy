/** backend/remove-return-types.py, `fix_file` without the file I/O: drop
    the `: Promise<void>` return type from every annotated route-handler
    header, and write the file back only when that changed the text. The
    count it reports is the number of `: Promise<void>` anywhere in the
    original text, which may exceed the number of headers it rewrote. */
module RemoveReturnTypes {
  import opened PyBuiltins
  import opened LiteralReplace
  import opened RouteHeaders
  import FixRouteTypes

  /** What becomes of one file: written back with the new text and the
      reported count, or left alone ("No changes"). */
  datatype Outcome = Written(text: string, count: nat) | NoChanges

  function FixFile(content: string): (r: Outcome)
    ensures r.NoChanges? <==> !Contains(content, Annotated)
    ensures r.Written? ==> r.text == Deannotate(content) && r.text != content
    ensures r.Written? ==> !Contains(r.text, Annotated)
    ensures r.Written? ==> r.count == Count(content, PromiseVoid)
    ensures r.Written? ==> r.count >= Count(content, Annotated) >= 1
    ensures r.Written? ==> |r.text| == |content| - |PromiseVoid| * Count(content, Annotated)
  {
    HeaderFacts();
    HeaderShape();
    CountPositive(content, Annotated);
    CountOfInnerPiece(content, Annotated, PromiseVoid, 35);
    var newContent := Deannotate(content);
    if newContent != content then Written(newContent, Count(content, PromiseVoid))
    else NoChanges
  }

  /** A file this script has just rewritten needs no change on a second run. */
  lemma SecondRunChangesNothing(content: string)
    requires FixFile(content).Written?
    ensures FixFile(FixFile(content).text) == NoChanges
  {
  }

  /** Undoing fix-route-types.py: removing the annotations it added gives
      back the original text, provided that text had no annotated header of
      its own. */
  lemma UndoesFixRouteTypes(content: string)
    requires !Contains(content, Annotated)
    ensures match FixRouteTypes.FixRouteHandlers(content)
      case Written(text, _) => FixFile(text).Written? && FixFile(text).text == content
      case NoChanges => FixFile(content) == NoChanges
  {
    if FixRouteTypes.FixRouteHandlers(content).Written? {
      DeannotateAnnotate(content);
    }
  }

  /** Undone by fix-route-types.py: adding back the annotations this script
      removed gives back the original text, provided that text had no
      unannotated header of its own. */
  lemma UndoneByFixRouteTypes(content: string)
    requires !Contains(content, Unannotated)
    ensures match FixFile(content)
      case Written(text, _) =>
        FixRouteTypes.FixRouteHandlers(text).Written? && FixRouteTypes.FixRouteHandlers(text).text == content
      case NoChanges => FixRouteTypes.FixRouteHandlers(content) == FixRouteTypes.NoChanges
  {
    if FixFile(content).Written? {
      AnnotateDeannotate(content);
    }
  }

  /** Characters that cannot start the pattern, in front of the text, do
      not change its count. */
  lemma {:induction false} CountAfterPrefix(w: string, t: string, p: string)
    requires |p| > 0 && p[0] !in w
    ensures Count(w + t, p) == Count(t, p)
    decreases |w|
  {
    if w == [] {
      assert w + t == t;
    } else {
      assert w[0] in w;
      assert forall c :: c in w[1..] ==> c in w;
      assert (w + t)[1..] == w[1..] + t;
      CountAfterPrefix(w[1..], t, p);
    }
  }

  /** The reported count can exceed the number of headers rewritten: a
      file holding one stray `: Promise<void>` before an annotated header
      reports two removals for the one it makes. */
  lemma ReportedCountCanExceedRemovals()
    ensures var content := PromiseVoid + Annotated;
      FixFile(content).Written? && FixFile(content).count >= 2 && Count(content, Annotated) == 1
  {
    var content := PromiseVoid + Annotated;
    HeaderFacts();
    HeaderShape();
    assert 'a' !in PromiseVoid;
    CountAfterPrefix(PromiseVoid, Annotated, Annotated);
    assert Annotated + [] == Annotated;
    assert Count(Annotated, Annotated) == 1 by {
      assert StartsWith(Annotated, Annotated);
      assert Annotated[|Annotated|..] == [];
    }
    assert StartsWith(content, PromiseVoid);
    assert content[|PromiseVoid|..] == Annotated;
    CountOfInnerPiece(Annotated, Annotated, PromiseVoid, 35);
    ContainsAt(content, Annotated, |PromiseVoid|);
  }
}
