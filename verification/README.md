# PDF image extractor: a Dafny model of the recovery engine

This project models `PDFImageExtractor` from `extractor.py`. The class walks
a PDF's indirect-object table (its xrefs) and decides, for each object,
whether it is an image. If it is, the class writes it, rebuilt where
needed, as `img_{xref}.{ext}`. The model covers the following:

- the scan over xrefs `1 .. xref_length-1`, with its progress callback;
- the classification `is_valid_image`;
- the soft-mask set kept on the extractor instance;
- the four-way dispatch of `process_image`;
- the reconstruction branches of `recover_pix`;
- the CMYK conversion.

Modules, one file each:

- `Basics` (`basics.dfy`): `Option` and `Result`.
- `Strings` (`strings.dfy`): Python's substring test `pat in s` (`Contains`), and `str(n)` for an xref (`Decimal`) with its parser.
- `Pdf` (`pdf.dfy`): the document as the PDF library presents it.
  - The document is a sequence of objects indexed by xref. Entry 0 is the free-list head.
  - Each object has its raw dictionary text and the result of `extract_image`.
  - That result is a record `(ext, colorspace, smask, image)`, a `ValueError`, or any other exception.
  - `extract_image` is deterministic. Out-of-range xrefs raise `ValueError`.
- `FileNames` (`filenames.dfy`): the output name `img_{xref}.{ext}` as data, and its inverse.
- `Extractor` (`extractor.dfy`): the class itself.
  - Pixel work done by the library is recorded as a `Payload` term that says how the bytes were made: the untouched stream, an alpha composite of two streams, or the object rendered (optionally RGB-converted) and encoded in a given format.
  - The scan is a recursive fold (`ScanFrom`) over xrefs, carrying the mask set, the count, the written outputs and the progress trace.
  - `ExtractImagesLoop` is the same loop written imperatively and proved equal to the fold.
- `ScanProperties` (`scan_properties.dfy`): the run invariant and the properties of a whole run.
- `Scenarios` (`scenarios.dfy`): two worked documents.
- `Findings` (`findings.dfy`): two defects, and a corrected scan.

A run ends as `Completed(scan)`, whose `scan.count` is the returned count. A
failure that escapes the loop gives `Aborted(scan, error)`; the scan state it
carries holds what had already been written and the mask already recorded.
The instance's mask set after the run is `scan.smasks`.

Two behaviours of the code are worth knowing before reading the model:

- The last branch of `recover_pix` (extractor.py:118-119) returns the plain extraction unchanged. That can be an undeliverable format such as `jpx`, with four-channel data. The soft-mask branch (extractor.py:84-95) builds its pixmap straight from the host's own stream and never converts it to RGB, so a four-component host is fused without conversion to RGB before PNG encoding. `ScanProperties.WrittenFormats` names both cases.
- The mask set lives on the instance (extractor.py:21) and is never cleared. The comment at extractor.py:69 says it is there so that masks are not reprocessed; see Findings.

## Model

| member | source | states |
|---|---|---|
| `Strings.ContainsIffOccurs` | extractor.py:27 | Python's `in` on strings holds exactly when the pattern occurs as a contiguous slice at some offset |
| `Strings.Decimal` | extractor.py:58 | the xref in a file name is written in base ten: non-empty, digits only, and no leading zero unless the xref is 0 |
| `Strings.DecimalRoundTrip` | extractor.py:58 | reading the decimal rendering of an xref gives the xref back |
| `FileNames.FileNameRoundTrip` | extractor.py:58 | the name `img_{xref}.{ext}` can be parsed back into its xref and extension |
| `FileNames.FileNameInjective` | extractor.py:58 | two different (xref, ext) pairs never produce the same file name |
| `Extractor.NewExtractor` | extractor.py:19-22 | a new extractor starts with an empty soft-mask set. The format whitelist is the fixed constant `VALID_FORMATS`, and `output_dir` is never read |
| `ScanProperties.FirstRun` | extractor.py:19-61 | because a new extractor knows no mask, its first run records only soft masks that the document's own images name. In a completed first run, an xref is written exactly when it is an image that extracts and no earlier written image named it as its mask |
| `Extractor.ImageMaskObjectsAreImages` | extractor.py:98 | any object with the `/ImageMask` marker also passes the `/Image` test of classification |
| `Extractor.IsValidImage` | extractor.py:24-37 | an object is selected exactly when it has the `/Image` marker, is not in the mask set, and extraction returns a record. A `ValueError` is a skip. Any other exception, on an image object outside the mask set, aborts the run |
| `Extractor.RecoverPix` | extractor.py:78-119 | the branches apply in priority order: soft mask gives a PNG fused with the mask's samples, or aborts if the mask cannot be extracted; `/ImageMask` gives a PNG with no colorspace; `/ColorSpace` gives an RGB image, JPEG exactly when the original extension contains `jp`, else PNG; otherwise the result is the plain re-extraction. Every branch except the last yields `png` or `jpg` |
| `Extractor.ConvertCmykToRgb` | extractor.py:121-129 | the result is the object rendered and converted to RGB, encoded with the original extension, which is kept; never png/jpg in its place |
| `Extractor.ProcessImage` | extractor.py:63-76 | dispatch goes in priority order: soft mask, then an undeliverable extension, then CMYK in a deliverable format, then as is. The mask set gains only the record's own positive soft-mask xref. A result labelled four-channel comes only from the fallback to plain extraction. A four-component record ends up converted to RGB, re-rendered as a stencil, fused unconverted with its soft mask, or through that fallback. Every result is deliverable except that fallback |
| `Extractor.VisitXref` | extractor.py:44-59 | one loop iteration reports progress once when a callback is supplied. The mask set only grows, and only by the record's own soft mask. An abort names this xref and writes nothing. Otherwise the iteration writes nothing, or exactly one image for this xref and counts it. `ScanProperties.VisitKeepsScanned` states the full effect against the run invariant |
| `Extractor.ScanExtends` | extractor.py:44-61 | the rest of the loop only extends the progress trace and the written outputs, counts every output it adds, never shrinks the mask set, and aborts only at an xref still to be visited |
| `Extractor.ExtractImages` | extractor.py:39-61 | the returned count equals the number of images written, the instance's mask set never shrinks, and an abort names an xref in 1 .. xref_count-1. The `ScanProperties` lemmas below carry the rest of its contract |
| `Extractor.ExtractImagesLoop` | extractor.py:39-61 | the loop as written computes the same run as the functional scan |
| `ScanProperties.ProcessIgnoresMasks` | extractor.py:63-76 | what processing delivers does not depend on the mask set |
| `ScanProperties.SkipNonImages` | extractor.py:44-49 | a stretch of objects without the `/Image` marker only adds progress reports |
| `ScanProperties.VisitKeepsScanned` | extractor.py:44-59 | one loop iteration either keeps the run invariant or stops in a state naming the failing xref |
| `ScanProperties.ScanInduction` | extractor.py:44-61 | any invariant that every visit preserves, or turns into a stop condition at the failing xref, holds at the end of every run of the loop |
| `ScanProperties.ScanFromSound` | extractor.py:44-61 | the run invariant holds at the end of the loop from any invariant state |
| `ScanProperties.ExtractImagesSound` | extractor.py:39-61 | every run satisfies the invariant. Outputs are in ascending xref order, and the count equals the number of outputs. In a completed run, images are written for exactly the selected xrefs, judged against the mask set as it stood at the visit, and the final mask set is the initial one plus the masks the outputs named. In an aborted run, the same holds below the failing xref. A run that aborts on an unreadable soft mask also keeps that mask, because the mask is recorded (extractor.py:70) before recovery tries to extract it |
| `ScanProperties.ProgressTrace` | extractor.py:44-46 | progress is reported as `(xref, xref_count)` for xrefs 1, 2, ... in order, once each, image or not, and never for xref 0. A completed run reports every xref; an aborted run stops at the failing one |
| `ScanProperties.MaskedXrefsNeverEmitted` | extractor.py:30-31 | an xref in the mask set at its visit writes nothing. This covers the instance's masks from earlier runs and any mask named by an earlier output |
| `ScanProperties.MaskSetGrowth` | extractor.py:68-70 | the mask set only grows. It gains only soft masks named by image objects of the document, and never xref 0 |
| `ScanProperties.OutputsWellFormed` | extractor.py:51-58 | the count equals the number of files written. Xrefs strictly increase and lie in 1 .. xref_count-1. File names are pairwise distinct. Each output is exactly what processing its xref delivers |
| `ScanProperties.EmittedIffSelected` | extractor.py:44-52 | in a completed run, an xref is written if and only if it carries `/Image`, extracts, and is not in the mask set as it stood when visited |
| `ScanProperties.WrittenFormats` | extractor.py:72-119 | every written file has a deliverable extension unless `recover_pix` fell back to plain extraction. A file labelled four-channel comes only from that fallback. A four-component record is written converted to RGB, as a stencil, fused unconverted with its soft mask, or through that fallback |
| `ScanProperties.AbortCauses` | extractor.py:33-36 | a run aborts only when an image object's extraction raises something other than `ValueError`, or when a named soft mask cannot be extracted. Conversely, no such failure is swallowed. A completed run met no image object, outside the mask set at its visit, whose extraction raised anything but `ValueError`. An aborted run met none before its failing xref |
| `Scenarios.OneJpegScenario` | extractor.py:39-61 | a 10-entry table with one JPEG at xref 3 completes with count 1 and progress 1..9 of 10, and writes the untouched stream as `img_3.jpeg` |
| `Scenarios.MaskedImageScenario` | extractor.py:63-95 | an image at xref 2 whose soft mask is at xref 5 is written as the fused `img_2.png`. Xref 5 writes nothing, and the mask set ends as {5} |
| `Findings.StaleMaskHidesImage` | extractor.py:19-21 | with the mask set carried over from an earlier document, an ordinary JPEG at a remembered xref writes nothing. A fresh extractor writes it |
| `Findings.LowerMaskWrittenStandalone` | extractor.py:68-70 | a soft mask listed before its host is written as an image of its own. Re-running the same extractor on the same file writes one image instead of two |
| `Findings.ScopedRunWritesNoMask` | extractor.py:68-70 | the corrected scan writes no referenced soft mask. In a completed run it writes exactly the image objects that no image names as a mask, and ends with exactly those masks recorded |
| `Findings.ScopedFixesLowerMask` | extractor.py:68-70 | on the mask-before-host document, the corrected scan writes only the fused image |

## Left out

- Pixel work is not computed: `Pixmap` construction, `set_alpha`, conversion to RGB and `tobytes`. It is recorded as `Payload` terms, and the colorspace of a pixmap built from a stream is left symbolic (`OfStream`). The library's constants are `csCMYK.n = 4` (`CMYK_N`) and the RGB colorspace (`DeviceRgb`).
- Failures of the pixel operations themselves are not modelled. Reconstruction of a classified image fails only when the mask it names cannot be extracted, or when re-extraction fails; both abort the run.
- Opening the document (`pymupdf.open`) and its failure are not modelled. The model starts from an opened document.
- Filesystem work is not modelled: the module-level directory creation (extractor.py:8-16), the per-document subfolder (extractor.py:53-56) and `save_images` (extractor.py:131-133). Outputs are the list of `(xref, image)` pairs with their file names. `output_dir` is stored by `__init__` but never read, so it has no counterpart.
- Cancellation by raising from the progress callback is not modelled. The callback is reduced to a flag saying whether one is supplied, and the trace of calls it receives.
- Truthiness of the processed record (extractor.py:51) is not modelled. `process_image` always returns a non-empty dictionary, so every processed xref is counted.
- extractor_interface.py (window, progress bar, timing) and extract_image_from_pdf.py (the older script) are not part of this model.

## Findings

| source | as written | input that shows it | evidently intended | confidence | as-written member | corrected member |
|---|---|---|---|---|---|---|
| extractor.py:19-21 | the mask set is created once per extractor and never cleared, and the window reuses one extractor for every file (extractor_interface.py:8) | scan a file with an image at xref 2 whose soft mask is xref 5, then, with the same extractor, a file whose xref 5 is a plain JPEG: the second file writes nothing | the mask set belongs to one run of one document | high; not executed | `Findings.StaleMaskHidesImage` | `Findings.ScopedRunWritesNoMask` |
| extractor.py:68-70 | a soft mask enters the set only when its host is processed, so a mask at a lower xref than its host has already been written | a file with a soft mask at xref 1 and its host at xref 2: `img_1.png` (the bare mask) and `img_2.png` are both written, and a second run with the same extractor writes only `img_2.png` | no soft mask is written as an image of its own, wherever it sits in the table | medium; not executed | `Findings.LowerMaskWrittenStandalone` | `Findings.ScopedRunWritesNoMask` |

The corrected scan, `Findings.ExtractImagesScoped`, is the same loop, but its
mask set is scoped to the run. Before any xref is visited, the set is seeded
with every soft mask that an image object of the document names.
`Findings.ScopedFixesLowerMask` shows that it writes only the fused image on
the second input above.
