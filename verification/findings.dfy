/**
 * Two defects in how the extractor keeps its soft-mask set, and a scan whose
 * set is scoped to one run.
 */
module Findings {
  import opened Strings
  import opened Pdf
  import opened Extractor
  import opened ScanProperties
  import opened Scenarios

  /** A six-entry table whose only image is a JPEG stream at xref 5. */
  predicate JpegAtFive(doc: Document)
  {
    && doc.XrefLength() == 6
    && forall x :: 0 <= x < 6 ==> doc.objects[x] == (if x == 5 then JPEG else PLAIN)
  }

  const JPEG_AT_FIVE: Output := Output(5, ImageOutput("jpeg", Channels(3), Stream([0xFF, 0xD8])))

  /**
   * The mask set lives on the instance and is never cleared, so a mask xref
   * learnt from one document hides an ordinary image with the same xref in the
   * next document scanned by the same extractor.
   */
  lemma StaleMaskHidesImage(a: Document, b: Document)
    requires MaskedImage(a)
    requires JpegAtFive(b)
    ensures var after := Extractor(ExtractImages(NewExtractor(), a, false).scan.smasks);
      ExtractImages(after, b, false) == Completed(Scan({5}, 0, [], []))
    ensures ExtractImages(NewExtractor(), b, false) == Completed(Scan({}, 1, [JPEG_AT_FIVE], []))
  {
    MaskedImageScenario(a);
    var masked := Scan({5}, 0, [], []);
    SkipNonImages(b, false, 1, 5, masked);
    assert VisitXref(b, false, 5, masked) == Continue(masked);
    var unmasked := Scan({}, 0, [], []);
    SkipNonImages(b, false, 1, 5, unmasked);
    assert VisitXref(b, false, 5, unmasked) == Continue(Scan({}, 1, [JPEG_AT_FIVE], []));
  }

  /** A soft mask at xref 1, and at xref 2 the image that names it. */
  const LATE_HOST: PdfObject := PdfObject(IMAGE_MARKER, Extracted(ImageRecord("png", 3, 1, [1, 2])))

  predicate MaskFirst(doc: Document)
  {
    && doc.XrefLength() == 3
    && doc.objects[0] == PLAIN
    && doc.objects[1] == SOFT_MASK
    && doc.objects[2] == LATE_HOST
  }

  const MASK_ALONE: Output := Output(1, ImageOutput("png", Channels(1), Stream([3, 4])))
  const LATE_FUSED: Output := Output(2, ImageOutput("png", OfStream([1, 2]), AlphaComposite([1, 2], [3, 4])))

  /**
   * A mask is added to the set only when its host is processed, so a mask
   * whose xref is lower than its host's has already been written as
   * `img_1.png` by then. Running the same extractor again on the same
   * document then writes one image instead of two.
   */
  lemma LowerMaskWrittenStandalone(doc: Document)
    requires MaskFirst(doc)
    ensures 1 in ReferencedMasks(doc)
    ensures ExtractImages(NewExtractor(), doc, false) == Completed(Scan({1}, 2, [MASK_ALONE, LATE_FUSED], []))
    ensures ExtractImages(Extractor({1}), doc, false) == Completed(Scan({1}, 1, [LATE_FUSED], []))
  {
    assert ReferencesMask(doc, 2, 1);
    var s0 := Scan({}, 0, [], []);
    var s1 := Scan({}, 1, [MASK_ALONE], []);
    var s2 := Scan({1}, 2, [MASK_ALONE, LATE_FUSED], []);
    assert VisitXref(doc, false, 1, s0) == Continue(s1);
    assert ScanFrom(doc, false, 1, s0) == ScanFrom(doc, false, 2, s1);
    assert VisitXref(doc, false, 2, s1) == Continue(s2);
    assert ScanFrom(doc, false, 2, s1) == ScanFrom(doc, false, 3, s2);
    var r0 := Scan({1}, 0, [], []);
    var r2 := Scan({1}, 1, [LATE_FUSED], []);
    assert VisitXref(doc, false, 1, r0) == Continue(r0);
    assert ScanFrom(doc, false, 1, r0) == ScanFrom(doc, false, 2, r0);
    assert VisitXref(doc, false, 2, r0) == Continue(r2);
    assert ScanFrom(doc, false, 2, r0) == ScanFrom(doc, false, 3, r2);
  }

  /**
   * A scan whose mask set is scoped to the run and seeded, before any xref is
   * visited, with every soft mask the document's images reference.
   */
  function ExtractImagesScoped(doc: Document, reportProgress: bool): (run: Run)
  {
    ExtractImages(Extractor(ReferencedMasks(doc)), doc, reportProgress)
  }

  /**
   * The scoped scan never writes a referenced soft mask, wherever it sits in
   * the table, and what it writes depends on the document alone: exactly the
   * image objects that no image names as its soft mask.
   */
  lemma ScopedRunWritesNoMask(doc: Document, cb: bool)
    ensures var outs := ExtractImagesScoped(doc, cb).scan.outputs;
      forall i :: 0 <= i < |outs| ==> outs[i].xref !in ReferencedMasks(doc)
    ensures var run := ExtractImagesScoped(doc, cb);
      run.Completed? ==> forall y :: 0 < y < doc.XrefLength() ==>
        (Emitted(run.scan.outputs, y) <==>
          Contains(doc.XrefObject(y), IMAGE_MARKER) && y !in ReferencedMasks(doc) && doc.ExtractImage(y).Extracted?)
    ensures var run := ExtractImagesScoped(doc, cb);
      run.Completed? ==> run.scan.smasks == ReferencedMasks(doc)
  {
    var ex := Extractor(ReferencedMasks(doc));
    ExtractImagesSound(ex, doc, cb);
    MaskedXrefsNeverEmitted(ex, doc, cb);
    MaskSetGrowth(ex, doc, cb);
    var run := ExtractImages(ex, doc, cb);
    var outs := run.scan.outputs;
    forall i | 0 <= i < |outs|
      ensures Selected(doc, {}, outs[i].xref)
    {
      assert Emitted(outs, outs[i].xref);
    }
    forall y | 0 <= y
      ensures MasksFrom(doc, outs, y) <= ReferencedMasks(doc)
    {
      MasksFromReferenced(doc, outs, y);
    }
  }

  /** On the document above, the scoped scan writes only the fused image. */
  lemma ScopedFixesLowerMask(doc: Document)
    requires MaskFirst(doc)
    ensures ExtractImagesScoped(doc, false) == Completed(Scan({1}, 1, [LATE_FUSED], []))
  {
    assert ReferencesMask(doc, 2, 1);
    assert !ReferencesMask(doc, 1, doc.ExtractImage(1).record.smask);
    assert ReferencedMasks(doc) == {1};
    LowerMaskWrittenStandalone(doc);
  }
}
