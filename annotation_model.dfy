/** The server-side consistency check of a stored annotation
    (`Annotation.clean`): its offsets must enclose a non-empty span and, when
    the page and the snapshot are both present, the snapshot must be the page
    text at those offsets, as Python slicing computes it. */
module AnnotationModel {
  import opened Common
  import opened PyValue
  import opened TextDiff
  import opened Reconcile

  const EmptySpan := ValidationError([Lit("end_offset must be greater than start_offset.")])

  function Mismatch(expected: string, got: string): Error
  {
    ValidationError([Lit("annotated_text does not match text at given offsets. Expected '"),
                     Lit(expected), Lit("', got '"), Lit(got), Lit("'.")])
  }

  /** `Annotation.clean` on the offsets, the text of the annotation's page and
      the snapshot `annotated_text`.  Every annotation has a page (a required
      foreign key, and a page object is always truthy), so only an empty
      snapshot skips the comparison. */
  function Clean(start: nat, end: nat, page: string, annotatedText: string): (r: Result<(), Error>)
    ensures r.Success? <==> start < end && (annotatedText == [] || ClampedSlice(page, start, end) == annotatedText)
    ensures end <= start ==> r == Failure(EmptySpan)
    ensures start < end && annotatedText != [] && ClampedSlice(page, start, end) != annotatedText ==>
              r == Failure(Mismatch(ClampedSlice(page, start, end), annotatedText))
  {
    if end <= start then Failure(EmptySpan)
    else if annotatedText != [] then
      var expected := ClampedSlice(page, start, end);
      if expected != annotatedText then Failure(Mismatch(expected, annotatedText)) else Success(())
    else Success(())
  }

  /** With offsets inside the page, a snapshot passes exactly when it is the
      page text between them. */
  lemma CleanInsidePage(text: string, start: nat, end: nat, annotatedText: string)
    requires start < end <= |text| && annotatedText != []
    ensures Clean(start, end, text, annotatedText).Success? <==> annotatedText == text[start..end]
  {
  }

  /** Python slicing stops at the end of the page, so an end offset past the
      end of the page passes when the snapshot is the page's tail from the
      start offset. */
  lemma CleanAcceptsEndPastPage()
    ensures Clean(1, 10, "abc", "bc").Success?
  {
    assert ClampedSlice("abc", 1, 10) == "abc"[1..3];
  }

  /** A start offset at or past the end of the page never passes with a
      non-empty snapshot. */
  lemma CleanRejectsStartPastPage(text: string, start: nat, end: nat, annotatedText: string)
    requires |text| <= start < end && annotatedText != []
    ensures Clean(start, end, text, annotatedText).Failure?
  {
    assert |ClampedSlice(text, start, end)| == 0;
  }

  /** Each survivor is the record of some `Survives` outcome. */
  lemma {:induction false} SurvivorsFromOutcomes<P>(outs: seq<Outcome<P>>, j: nat)
    requires j < |Survivors(outs)|
    ensures exists k :: 0 <= k < |outs| && outs[k] == Survives(Survivors(outs)[j])
    decreases |outs|
  {
    var init := outs[..|outs| - 1];
    var last := outs[|outs| - 1];
    assert Survivors(outs) == Survivors(init) + if last.Survives? then [last.updated] else [];
    if j < |Survivors(init)| {
      SurvivorsFromOutcomes(init, j);
      var k :| 0 <= k < |init| && init[k] == Survives(Survivors(init)[j]);
      assert outs[k] == init[k];
    } else {
      assert outs[|outs| - 1] == Survives(Survivors(outs)[j]);
    }
  }

  /** The browser and the server agree: after an edit of the page text from
      `oldText` to `newText`, every annotation that the offset reconciliation
      keeps, from records with non-empty spans, passes the server's check
      against the new text. */
  lemma ReconciledAnnotationsPassClean<P>(oldText: string, newText: string, anns: seq<Annotation<P>>, j: nat)
    requires forall k :: 0 <= k < |anns| ==> anns[k].start < anns[k].end
    requires j < |UpdatedAnnotations(Diff(oldText, newText), newText, anns)|
    ensures var u := UpdatedAnnotations(Diff(oldText, newText), newText, anns)[j];
            Clean(u.start, u.end, newText, u.text).Success?
  {
    var ops := Diff(oldText, newText);
    var outs := Outcomes(ops, newText, anns);
    SurvivorsFromOutcomes(outs, j);
    var k :| 0 <= k < |outs| && outs[k] == Survives(Survivors(outs)[j]);
    OutcomesAt(ops, newText, anns, k);
    SurvivorInNewText(oldText, newText, anns[k]);
  }
}
