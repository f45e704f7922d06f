/** The Express route-handler header the scripts rewrite, with and without
    the explicit `: Promise<void>` return type, and the two literal
    substitutions between them (fix-route-types.py adds the annotation;
    remove-return-types.py and the first step of fix-return-types.py drop
    it). */
module RouteHeaders {
  import opened PyBuiltins
  import opened LiteralReplace

  /** The parameter list of every route handler. */
  const Params: string := "(req: Request, res: Response)"

  /** The annotation itself, the text remove-return-types.py counts. */
  const PromiseVoid: string := ": Promise<void>"

  /** `async (req: Request, res: Response) =>` */
  const Unannotated: string := "async " + Params + " =>"

  /** `async (req: Request, res: Response): Promise<void> =>` */
  const Annotated: string := "async " + Params + PromiseVoid + " =>"

  /** The two headers differ by the annotation, inserted right after the
      parameter list. */
  lemma HeaderShape()
    ensures |Unannotated| == 38 && |Annotated| == 53 && |PromiseVoid| == 15
    ensures Annotated == Unannotated[..35] + PromiseVoid + Unannotated[35..]
    ensures Annotated[35..50] == PromiseVoid
  {
    assert Unannotated[..35] == "async " + Params;
    assert Unannotated[35..] == " =>";
  }

  /** The first character `a` of the unannotated header occurs nowhere
      else in it. */
  lemma UnannotatedHeadUnique()
    ensures HeadUnique(Unannotated)
  {
    var rest := "sync " + Params + " =>";
    assert Unannotated == ['a'] + rest;
    assert 'a' !in "sync " && 'a' !in Params && 'a' !in " =>";
  }

  /** The first character `a` of the annotated header occurs nowhere else
      in it. */
  lemma AnnotatedHeadUnique()
    ensures HeadUnique(Annotated)
  {
    var rest := "sync " + Params + PromiseVoid + " =>";
    assert Annotated == ['a'] + rest;
    assert 'a' !in "sync " && 'a' !in Params && 'a' !in PromiseVoid && 'a' !in " =>";
  }

  /** The first character `:` of the annotation occurs nowhere else in it. */
  lemma PromiseVoidHeadUnique()
    ensures HeadUnique(PromiseVoid)
  {
  }

  /** Both headers open with the same `a`, which occurs nowhere else in
      either; the annotation's `:` occurs nowhere else in the annotation;
      and neither header is a prefix of the other. */
  lemma HeaderFacts()
    ensures HeadUnique(Unannotated) && HeadUnique(Annotated) && HeadUnique(PromiseVoid)
    ensures Unannotated[0] == Annotated[0]
    ensures Unannotated[0] !in Annotated[1..] && Annotated[0] !in Unannotated[1..]
    ensures !StartsWith(Unannotated, Annotated) && !StartsWith(Annotated, Unannotated)
  {
    UnannotatedHeadUnique();
    AnnotatedHeadUnique();
    PromiseVoidHeadUnique();
    HeaderShape();
    assert Unannotated[35] != Annotated[35];
  }

  /** fix-route-types.py's substitution: every unannotated header gains the
      annotation. */
  function Annotate(t: string): (r: string)
    ensures !Contains(r, Unannotated)
    ensures |r| == |t| + |PromiseVoid| * Count(t, Unannotated)
    ensures r == t <==> !Contains(t, Unannotated)
  {
    HeaderFacts();
    ReplaceLeavesNoPattern(t, Unannotated, Annotated);
    ReplaceLength(t, Unannotated, Annotated);
    ReplaceChanges(t, Unannotated, Annotated);
    ReplaceAll(t, Unannotated, Annotated)
  }

  /** remove-return-types.py's substitution (also the first step of
      fix-return-types.py): every annotated header loses its annotation. */
  function Deannotate(t: string): (r: string)
    ensures !Contains(r, Annotated)
    ensures |r| == |t| - |PromiseVoid| * Count(t, Annotated)
    ensures r == t <==> !Contains(t, Annotated)
  {
    HeaderFacts();
    ReplaceLeavesNoPattern(t, Annotated, Unannotated);
    ReplaceLength(t, Annotated, Unannotated);
    ReplaceChanges(t, Annotated, Unannotated);
    ReplaceAll(t, Annotated, Unannotated)
  }

  /** Annotating twice is annotating once. */
  lemma AnnotateIdempotent(t: string)
    ensures Annotate(Annotate(t)) == Annotate(t)
  {
  }

  /** Removing the annotation twice is removing it once. */
  lemma DeannotateIdempotent(t: string)
    ensures Deannotate(Deannotate(t)) == Deannotate(t)
  {
  }

  /** Removing what was just added gives the text back when it held no
      annotated header to begin with. */
  lemma DeannotateAnnotate(t: string)
    requires !Contains(t, Annotated)
    ensures Deannotate(Annotate(t)) == t
  {
    HeaderFacts();
    ReplaceInverse(t, Unannotated, Annotated);
  }

  /** Adding what was just removed gives the text back when it held no
      unannotated header to begin with. */
  lemma AnnotateDeannotate(t: string)
    requires !Contains(t, Unannotated)
    ensures Annotate(Deannotate(t)) == t
  {
    HeaderFacts();
    ReplaceInverse(t, Annotated, Unannotated);
  }
}
