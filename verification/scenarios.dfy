/**
 * Two worked documents, followed through the scan. Dictionary texts are
 * cut down to the markers the extractor looks for.
 */
module Scenarios {
  import opened Strings
  import opened Pdf
  import opened Extractor
  import opened ScanProperties
  import FileNames

  /** An object that is not an image: no marker, and extraction raises ValueError. */
  const PLAIN: PdfObject := PdfObject("<<>>", RaisesValueError)

  /** A JPEG image object. */
  const JPEG: PdfObject := PdfObject(IMAGE_MARKER, Extracted(ImageRecord("jpeg", 3, 0, [0xFF, 0xD8])))

  const JPEG_OUTPUT: Output := Output(3, ImageOutput("jpeg", Channels(3), Stream([0xFF, 0xD8])))

  /** A ten-entry table whose only image is a JPEG stream at xref 3. */
  predicate OneJpeg(doc: Document)
  {
    && doc.XrefLength() == 10
    && forall x :: 0 <= x < 10 ==> doc.objects[x] == (if x == 3 then JPEG else PLAIN)
  }

  /**
   * One JPEG and no masks: the run completes, reports progress for xrefs
   * 1 .. 9 of 10, and writes the stream untouched as `img_3.jpeg`.
   */
  lemma OneJpegScenario(doc: Document)
    requires OneJpeg(doc)
    ensures ExtractImages(NewExtractor(), doc, true)
      == Completed(Scan({}, 1, [JPEG_OUTPUT],
                        [Tick(1, 10), Tick(2, 10), Tick(3, 10), Tick(4, 10), Tick(5, 10),
                         Tick(6, 10), Tick(7, 10), Tick(8, 10), Tick(9, 10)]))
    ensures JPEG_OUTPUT.FileName() == "img_3.jpeg"
  {
    var s0 := Scan({}, 0, [], []);
    SkipNonImages(doc, true, 1, 3, s0);
    var s2 := Scan({}, 0, [], [Tick(1, 10), Tick(2, 10)]);
    assert Reported(true, s0, 1, 3, 10) == s2;
    var s3 := Scan({}, 1, [JPEG_OUTPUT], [Tick(1, 10), Tick(2, 10), Tick(3, 10)]);
    assert VisitXref(doc, true, 3, s2) == Continue(s3);
    SkipNonImages(doc, true, 4, 10, s3);
    assert seq(6, i requires 0 <= i < 6 => Tick(4 + i, 10))
        == [Tick(4, 10), Tick(5, 10), Tick(6, 10), Tick(7, 10), Tick(8, 10), Tick(9, 10)];
    assert "img_3.jpeg" == FileNames.PREFIX + Decimal(3) + "." + "jpeg";
  }

  /** An image with a soft mask, and the mask object it names. */
  const HOST: PdfObject := PdfObject(IMAGE_MARKER, Extracted(ImageRecord("png", 3, 5, [1, 2])))
  const SOFT_MASK: PdfObject := PdfObject(IMAGE_MARKER, Extracted(ImageRecord("png", 1, 0, [3, 4])))

  const FUSED_OUTPUT: Output := Output(2, ImageOutput("png", OfStream([1, 2]), AlphaComposite([1, 2], [3, 4])))

  /** A six-entry table: the image at xref 2 names the image object at xref 5 as its soft mask. */
  predicate MaskedImage(doc: Document)
  {
    && doc.XrefLength() == 6
    && forall x :: 0 <= x < 6 ==> doc.objects[x] == (if x == 2 then HOST else if x == 5 then SOFT_MASK else PLAIN)
  }

  /**
   * The host is fused with its mask and written as `img_2.png`; xref 5 is in
   * the mask set by the time it is visited and writes nothing.
   */
  lemma MaskedImageScenario(doc: Document)
    requires MaskedImage(doc)
    ensures ExtractImages(NewExtractor(), doc, false) == Completed(Scan({5}, 1, [FUSED_OUTPUT], []))
    ensures FUSED_OUTPUT.FileName() == "img_2.png"
  {
    var s0 := Scan({}, 0, [], []);
    assert VisitXref(doc, false, 1, s0) == Continue(s0);
    assert ScanFrom(doc, false, 1, s0) == ScanFrom(doc, false, 2, s0);
    var s2 := Scan({5}, 1, [FUSED_OUTPUT], []);
    assert VisitXref(doc, false, 2, s0) == Continue(s2);
    assert ScanFrom(doc, false, 2, s0) == ScanFrom(doc, false, 3, s2);
    SkipNonImages(doc, false, 3, 5, s2);
    assert VisitXref(doc, false, 5, s2) == Continue(s2);
    assert ScanFrom(doc, false, 5, s2) == Completed(s2);
    assert "img_2.png" == FileNames.PREFIX + Decimal(2) + "." + "png";
  }
}
