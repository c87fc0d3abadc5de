/**
 * The image-recovery engine (`PDFImageExtractor`): scans a document's
 * object table, classifies each object, and turns every image object into
 * one deliverable image named `img_{xref}.{ext}`.
 *
 * Pixel work done by the PDF library (building a pixmap, copying an alpha
 * channel in, converting to RGB, encoding) is recorded as a `Payload` term
 * that says how the bytes were produced, rather than computed.
 */
module Extractor {
  import opened Basics
  import opened Strings
  import opened Pdf
  import FileNames

  /** Markers searched for in an object's dictionary text. */
  const IMAGE_MARKER: string := "/Image"
  const IMAGE_MASK_MARKER: string := "/ImageMask"
  const COLORSPACE_MARKER: string := "/ColorSpace"

  /** Formats written out without reconstruction (`valid_formats`). */
  const VALID_FORMATS: set<string> :=
    {"png", "pnm", "pgm", "ppm", "pbm", "pam", "psd", "ps", "jpg", "jpeg"}

  /** Number of components of the library's CMYK colorspace (`csCMYK.n`). */
  const CMYK_N: int := 4

  /**
   * The stencil-mask marker extends the image marker, so every object
   * `recover_pix` treats as a stencil mask also passes the image-marker test.
   */
  lemma ImageMaskObjectsAreImages(text: string)
    ensures Contains(text, IMAGE_MASK_MARKER) ==> Contains(text, IMAGE_MARKER)
  {
    if Contains(text, IMAGE_MASK_MARKER) {
      ContainsPrefixOf(text, IMAGE_MASK_MARKER, IMAGE_MARKER);
    }
  }

  /** The extractor instance: its only mutable state is the soft-mask set. */
  datatype Extractor = Extractor(smasks: set<nat>)

  /** A freshly constructed extractor: no mask known yet. */
  function NewExtractor(): (ex: Extractor)
    ensures ex.smasks == {}
  {
    Extractor({})
  }

  /** The `colorspace` entry of a delivered image. */
  datatype Colorspace =
    | Channels(n: int)        // component count as reported by extraction
    | DeviceRgb               // the library's RGB colorspace after conversion
    | NoColorspace            // stencil masks report none
    | OfStream(image: Bytes)  // whatever colorspace a pixmap built from these bytes has

  /** How the delivered bytes were produced. */
  datatype Payload =
    | Stream(bytes: Bytes)                         // the extracted stream, untouched
    | AlphaComposite(base: Bytes, alpha: Bytes)    // pixmap of `base` with alpha from pixmap of `alpha`, PNG-encoded
    | Rendered(xref: nat, toRgb: bool, format: string) // pixmap of the object, optionally RGB-converted, encoded as `format`

  /** The dictionary returned by `process_image`. */
  datatype ImageOutput = ImageOutput(ext: string, colorspace: Colorspace, payload: Payload)

  /** Failures that abort a whole run. */
  datatype RunError =
    | ExtractionFailed(xref: nat)          // extract_image(xref) raised something other than a skip
    | MaskUnreadable(host: nat, mask: nat) // extract_image(mask) raised while fusing a soft mask

  /** The xref being handled when the run aborted. */
  function ErrorXref(e: RunError): (x: nat)
  {
    match e
    case ExtractionFailed(x) => x
    case MaskUnreadable(h, _) => h
  }

  /** An extracted record delivered as it is. */
  function AsIs(rec: ImageRecord): (out: ImageOutput)
  {
    ImageOutput(rec.ext, Channels(rec.colorspace), Stream(rec.image))
  }

  /** The soft mask a record brings into the mask set, if any. */
  function MaskRef(rec: ImageRecord): (m: set<nat>)
  {
    if rec.smask > 0 then {rec.smask} else {}
  }

  /**
   * `is_valid_image`: the object must carry the image marker, must not be a
   * known soft mask, and extraction must not raise ValueError. Any other
   * exception escapes and aborts the run.
   */
  function IsValidImage(doc: Document, xref: nat, smasks: set<nat>): (r: Result<bool, RunError>)
    requires 0 < xref < doc.XrefLength()
    ensures r == Ok(true) <==>
      Contains(doc.XrefObject(xref), IMAGE_MARKER) && xref !in smasks && doc.ExtractImage(xref).Extracted?
    ensures r.Err? <==>
      Contains(doc.XrefObject(xref), IMAGE_MARKER) && xref !in smasks && doc.ExtractImage(xref) == RaisesOtherError
    ensures r.Err? ==> r.error == ExtractionFailed(xref)
  {
    if !Contains(doc.XrefObject(xref), IMAGE_MARKER) then Ok(false)
    else if xref in smasks then Ok(false)
    else
      match doc.ExtractImage(xref)
      case Extracted(_) => Ok(true)
      case RaisesValueError => Ok(false)
      case RaisesOtherError => Err(ExtractionFailed(xref))
  }

  /** None of the markers `recover_pix` reacts to: it falls back to plain extraction. */
  predicate Unrecognised(doc: Document, xref: nat, item: ImageRecord)
    requires 0 < xref < doc.XrefLength()
  {
    && item.smask == 0
    && !Contains(doc.XrefObject(xref), IMAGE_MASK_MARKER)
    && !Contains(doc.XrefObject(xref), COLORSPACE_MARKER)
  }

  /**
   * `recover_pix`: rebuild an image the library cannot deliver directly.
   * Branches in priority order: soft-mask fusion, stencil mask, explicit
   * colorspace, and otherwise plain re-extraction.
   */
  function RecoverPix(doc: Document, xref: nat, item: ImageRecord): (r: Result<ImageOutput, RunError>)
    requires 0 < xref < doc.XrefLength()
    // soft mask: PNG with the mask's samples as alpha, or abort if the mask cannot be extracted
    ensures item.smask > 0 ==> (r.Ok? <==> doc.ExtractImage(item.smask).Extracted?)
    ensures item.smask > 0 && r.Ok? ==>
      && r.value.ext == "png"
      && r.value.colorspace == OfStream(item.image)
      && r.value.payload == AlphaComposite(item.image, doc.ExtractImage(item.smask).record.image)
    ensures item.smask > 0 && r.Err? ==> r.error == MaskUnreadable(xref, item.smask)
    // stencil mask: PNG without colorspace, rendered from the object itself
    ensures item.smask == 0 && Contains(doc.XrefObject(xref), IMAGE_MASK_MARKER) ==>
      r == Ok(ImageOutput("png", NoColorspace, Rendered(xref, false, "png")))
    // explicit colorspace: RGB, JPEG when the original format was of the JPEG family, else PNG
    ensures (item.smask == 0 && !Contains(doc.XrefObject(xref), IMAGE_MASK_MARKER)
             && Contains(doc.XrefObject(xref), COLORSPACE_MARKER)) ==>
      && r.Ok?
      && r.value.ext == (if Contains(item.ext, "jp") then "jpg" else "png")
      && r.value.colorspace == DeviceRgb
      && r.value.payload == Rendered(xref, true, r.value.ext)
    // fallback: whatever plain extraction of the same object gives, even an undeliverable format
    ensures Unrecognised(doc, xref, item) ==>
      r == (if doc.ExtractImage(xref).Extracted? then Ok(AsIs(doc.ExtractImage(xref).record))
            else Err(ExtractionFailed(xref)))
    ensures r.Ok? && !Unrecognised(doc, xref, item) ==> r.value.ext in {"png", "jpg"}
  {
    var text := doc.XrefObject(xref);
    if item.smask != 0 then
      match doc.ExtractImage(item.smask)
      case Extracted(mask) =>
        Ok(ImageOutput("png", OfStream(item.image), AlphaComposite(item.image, mask.image)))
      case _ => Err(MaskUnreadable(xref, item.smask))
    else if Contains(text, IMAGE_MASK_MARKER) then
      Ok(ImageOutput("png", NoColorspace, Rendered(xref, false, "png")))
    else if Contains(text, COLORSPACE_MARKER) then
      var ext := if Contains(item.ext, "jp") then "jpg" else "png";
      Ok(ImageOutput(ext, DeviceRgb, Rendered(xref, true, ext)))
    else
      match doc.ExtractImage(xref)
      case Extracted(rec) => Ok(AsIs(rec))
      case _ => Err(ExtractionFailed(xref))
  }

  /** `convert_cmyk_to_rgb`: render the object, convert it to RGB, keep the original format. */
  function ConvertCmykToRgb(doc: Document, xref: nat, rec: ImageRecord): (r: ImageOutput)
    ensures r.ext == rec.ext
    ensures r.colorspace == DeviceRgb
    ensures r.payload.Rendered? && r.payload.xref == xref && r.payload.toRgb && r.payload.format == rec.ext
  {
    ImageOutput(rec.ext, DeviceRgb, Rendered(xref, true, rec.ext))
  }

  /**
   * What a record with four colour components can become once processed:
   * converted to RGB, re-rendered as a stencil, fused with its soft mask
   * without conversion (the fused pixmap keeps the host stream's own
   * components), or delivered as plain extraction when recovery finds none
   * of its markers.
   */
  predicate CmykOutcome(doc: Document, xref: nat, rec: ImageRecord, out: ImageOutput)
    requires 0 < xref < doc.XrefLength()
  {
    || out.colorspace in {DeviceRgb, NoColorspace}
    || (rec.smask > 0 && out.colorspace == OfStream(rec.image))
    || (Unrecognised(doc, xref, rec) && out == AsIs(rec))
  }

  /** What `process_image` leaves behind: the updated mask set and its result. */
  datatype Processed = Processed(smasks: set<nat>, outcome: Result<ImageOutput, RunError>)

  /**
   * `process_image`: re-extract the object and dispatch, in priority order,
   * to soft-mask recovery (recording the mask first), generic recovery of an
   * undeliverable format, CMYK conversion, or delivery as it is.
   */
  function ProcessImage(doc: Document, xref: nat, smasks: set<nat>): (p: Processed)
    requires 0 < xref < doc.XrefLength()
    ensures !doc.ExtractImage(xref).Extracted? ==> p == Processed(smasks, Err(ExtractionFailed(xref)))
    // the mask set only ever gains the record's own soft-mask reference, and only a positive one
    ensures doc.ExtractImage(xref).Extracted? ==>
      p.smasks == smasks + MaskRef(doc.ExtractImage(xref).record)
    // dispatch, in priority order
    ensures doc.ExtractImage(xref).Extracted? ==>
      var rec := doc.ExtractImage(xref).record;
      && (rec.smask > 0 ==> p.outcome == RecoverPix(doc, xref, rec))
      && (rec.smask == 0 && rec.ext !in VALID_FORMATS ==> p.outcome == RecoverPix(doc, xref, rec))
      && (rec.smask == 0 && rec.ext in VALID_FORMATS && rec.colorspace == CMYK_N ==>
            p.outcome == Ok(ConvertCmykToRgb(doc, xref, rec)))
      && (rec.smask == 0 && rec.ext in VALID_FORMATS && rec.colorspace != CMYK_N ==>
            p.outcome == Ok(AsIs(rec)))
    // a CMYK image is never delivered with its four channels unless recovery fell back to plain extraction
    ensures doc.ExtractImage(xref).Extracted? && p.outcome.Ok? && p.outcome.value.colorspace == Channels(CMYK_N) ==>
      var rec := doc.ExtractImage(xref).record;
      rec.ext !in VALID_FORMATS && Unrecognised(doc, xref, rec)
    // a four-component record is converted, stencilled, fused unconverted with its soft mask, or falls back
    ensures doc.ExtractImage(xref).Extracted? && doc.ExtractImage(xref).record.colorspace == CMYK_N && p.outcome.Ok? ==>
      CmykOutcome(doc, xref, doc.ExtractImage(xref).record, p.outcome.value)
    // every delivered image is in a deliverable format, unless recovery fell back to plain extraction
    ensures p.outcome.Ok? ==>
      p.outcome.value.ext in VALID_FORMATS
      || (doc.ExtractImage(xref).Extracted? && Unrecognised(doc, xref, doc.ExtractImage(xref).record)
          && p.outcome.value == AsIs(doc.ExtractImage(xref).record))
  {
    match doc.ExtractImage(xref)
    case Extracted(rec) =>
      if rec.smask > 0 then
        Processed(smasks + {rec.smask}, RecoverPix(doc, xref, rec))
      else if rec.ext !in VALID_FORMATS then
        Processed(smasks, RecoverPix(doc, xref, rec))
      else if rec.colorspace == CMYK_N then
        Processed(smasks, Ok(ConvertCmykToRgb(doc, xref, rec)))
      else
        Processed(smasks, Ok(AsIs(rec)))
    case _ => Processed(smasks, Err(ExtractionFailed(xref)))
  }

  /** One call of the progress callback: `(xref, xref_count)`. */
  datatype Tick = Tick(current: nat, total: nat)

  /** One written image: the file `img_{xref}.{ext}` holding `image`. */
  datatype Output = Output(xref: nat, image: ImageOutput) {
    function FileName(): (name: string)
    {
      FileNames.FileName(xref, image.ext)
    }
  }

  /** The state the scan carries from one xref to the next. */
  datatype Scan = Scan(
    smasks: set<nat>,     // the instance's soft-mask set
    count: nat,           // `img_count`
    outputs: seq<Output>, // images written so far, in order
    progress: seq<Tick>)  // progress callbacks made so far, in order

  /** The result of one loop iteration. */
  datatype Visit = Continue(scan: Scan) | Stop(scan: Scan, error: RunError)

  /** The result of `extract_images`: the count is `scan.count` on completion. */
  datatype Run = Completed(scan: Scan) | Aborted(scan: Scan, error: RunError)

  /**
   * The body of the scan loop for one xref: report progress (when a callback
   * is supplied), classify, process, and on success count and write.
   */
  function VisitXref(doc: Document, reportProgress: bool, xref: nat, st: Scan): (v: Visit)
    requires 0 < xref < doc.XrefLength()
    // exactly one progress report per visit, when a callback is supplied
    ensures v.scan.progress == st.progress + (if reportProgress then [Tick(xref, doc.XrefLength())] else [])
    // the mask set only grows, and only by the soft mask of an image object
    ensures st.smasks <= v.scan.smasks
    ensures v.scan.smasks - st.smasks <= (if doc.ExtractImage(xref).Extracted? then {doc.ExtractImage(xref).record.smask} else {})
    // a visit writes at most one image, for this xref, and counts what it writes
    ensures v.Stop? ==> v.scan.outputs == st.outputs && v.scan.count == st.count && ErrorXref(v.error) == xref
    ensures v.Continue? ==>
      || (v.scan.outputs == st.outputs && v.scan.count == st.count && v.scan.smasks == st.smasks)
      || (v.scan.count == st.count + 1 && exists img :: v.scan.outputs == st.outputs + [Output(xref, img)])
  {
    var st1 := if reportProgress then st.(progress := st.progress + [Tick(xref, doc.XrefLength())]) else st;
    match IsValidImage(doc, xref, st1.smasks)
    case Err(e) => Stop(st1, e)
    case Ok(valid) =>
      if !valid then Continue(st1)
      else
        var p := ProcessImage(doc, xref, st1.smasks);
        match p.outcome
        case Err(e) => Stop(st1.(smasks := p.smasks), e)
        case Ok(img) =>
          Continue(Scan(p.smasks, st1.count + 1, st1.outputs + [Output(xref, img)], st1.progress))
  }

  /** The scan loop from `xref` up to the end of the object table. */
  function ScanFrom(doc: Document, reportProgress: bool, xref: nat, st: Scan): (run: Run)
    requires 0 < xref
    decreases doc.XrefLength() - xref
  {
    if xref >= doc.XrefLength() then Completed(st)
    else
      match VisitXref(doc, reportProgress, xref, st)
      case Stop(s, e) => Aborted(s, e)
      case Continue(s) => ScanFrom(doc, reportProgress, xref + 1, s)
  }

  /**
   * `extract_images`: scan xrefs 1 .. XrefLength()-1, starting from the
   * instance's current mask set. The instance keeps `scan.smasks` afterwards.
   */
  function ExtractImages(ex: Extractor, doc: Document, reportProgress: bool): (run: Run)
    ensures run.scan.count == |run.scan.outputs|
    ensures ex.smasks <= run.scan.smasks
    ensures run.Aborted? ==> 0 < ErrorXref(run.error) < doc.XrefLength()
  {
    ScanExtends(doc, reportProgress, 1, Scan(ex.smasks, 0, [], []));
    ScanFrom(doc, reportProgress, 1, Scan(ex.smasks, 0, [], []))
  }

  /**
   * The rest of a scan only extends what it has already reported, written and
   * counted, never shrinks the mask set, and aborts only at an xref it had
   * still to visit.
   */
  lemma {:induction false} ScanExtends(doc: Document, reportProgress: bool, xref: nat, st: Scan)
    requires 0 < xref
    ensures var run := ScanFrom(doc, reportProgress, xref, st);
      && st.progress <= run.scan.progress && st.outputs <= run.scan.outputs
      && run.scan.count - st.count == |run.scan.outputs| - |st.outputs|
      && st.smasks <= run.scan.smasks
      && (run.Aborted? ==> xref <= ErrorXref(run.error) < doc.XrefLength())
    decreases doc.XrefLength() - xref
  {
    if xref < doc.XrefLength() {
      var v := VisitXref(doc, reportProgress, xref, st);
      if v.Continue? {
        ScanExtends(doc, reportProgress, xref + 1, v.scan);
      }
    }
  }

  /** The scan as a `while` loop, agreeing with `ExtractImages`. */
  method ExtractImagesLoop(ex: Extractor, doc: Document, reportProgress: bool) returns (run: Run)
    ensures run == ExtractImages(ex, doc, reportProgress)
  {
    var st := Scan(ex.smasks, 0, [], []);
    var xref := 1;
    while xref < doc.XrefLength()
      invariant 0 < xref
      invariant ScanFrom(doc, reportProgress, xref, st) == ExtractImages(ex, doc, reportProgress)
      decreases doc.XrefLength() - xref
    {
      var v := VisitXref(doc, reportProgress, xref, st);
      if v.Stop? {
        return Aborted(v.scan, v.error);
      }
      st := v.scan;
      xref := xref + 1;
    }
    run := Completed(st);
  }
}
