/**
 * What a run of `extract_images` guarantees, stated over its trace: the
 * order of progress reports, which xrefs produce an image, how the
 * soft-mask set grows, and the shape of what is written.
 */
module ScanProperties {
  import opened Basics
  import opened Strings
  import opened Pdf
  import opened Extractor
  import FileNames

  /** The soft mask that processing `xref` adds to the mask set. */
  function MaskOf(doc: Document, xref: nat): (m: set<nat>)
  {
    match doc.ExtractImage(xref)
    case Extracted(rec) => MaskRef(rec)
    case _ => {}
  }

  /** Soft masks added by those outputs whose xref lies below `bound`. */
  function MasksFrom(doc: Document, outs: seq<Output>, bound: nat): (m: set<nat>)
  {
    if |outs| == 0 then {}
    else
      var last := outs[|outs| - 1];
      MasksFrom(doc, outs[..|outs| - 1], bound) + (if last.xref < bound then MaskOf(doc, last.xref) else {})
  }

  /** Some output was written for `xref`. */
  predicate Emitted(outs: seq<Output>, xref: nat)
  {
    exists i :: 0 <= i < |outs| && outs[i].xref == xref
  }

  /** The classification succeeds for `xref` against mask set `masks`. */
  predicate Selected(doc: Document, masks: set<nat>, xref: nat)
  {
    && 0 < xref < doc.XrefLength()
    && Contains(doc.XrefObject(xref), IMAGE_MARKER)
    && xref !in masks
    && doc.ExtractImage(xref).Extracted?
  }

  /** `o` is what processing its xref delivers (processing does not consult the mask set). */
  predicate Written(doc: Document, o: Output)
  {
    0 < o.xref < doc.XrefLength() && ProcessImage(doc, o.xref, {}).outcome == Ok(o.image)
  }

  /** A written image is in a deliverable format, or is plain extraction after recovery found no marker. */
  predicate Deliverable(doc: Document, o: Output)
  {
    || o.image.ext in VALID_FORMATS
    || (&& 0 < o.xref < doc.XrefLength()
        && doc.ExtractImage(o.xref).Extracted?
        && Unrecognised(doc, o.xref, doc.ExtractImage(o.xref).record)
        && o.image == AsIs(doc.ExtractImage(o.xref).record))
  }

  /** Some image object's extraction names `mask` as its soft mask. */
  predicate ReferencesMask(doc: Document, xref: nat, mask: nat)
  {
    && 0 < xref < doc.XrefLength()
    && Contains(doc.XrefObject(xref), IMAGE_MARKER)
    && doc.ExtractImage(xref).Extracted?
    && doc.ExtractImage(xref).record.smask == mask
    && mask > 0
  }

  /** Every soft mask referenced by an image object of the document. */
  function ReferencedMasks(doc: Document): (m: set<nat>)
  {
    set x | 0 < x < doc.XrefLength() && doc.ExtractImage(x).Extracted? && ReferencesMask(doc, x, doc.ExtractImage(x).record.smask)
      :: doc.ExtractImage(x).record.smask
  }

  ghost predicate Increasing(outs: seq<Output>)
  {
    forall i, j :: 0 <= i < j < |outs| ==> outs[i].xref < outs[j].xref
  }

  /**
   * The outputs after scanning xrefs 1 .. x-1 from initial mask set `init`:
   * in ascending xref order, and written for exactly those xrefs that were
   * classified as images against the mask set as it stood when they were visited.
   */
  ghost predicate Emissions(doc: Document, init: set<nat>, x: nat, outs: seq<Output>)
  {
    && (forall i :: 0 <= i < |outs| ==> 0 < outs[i].xref < x)
    && Increasing(outs)
    && (forall y :: 0 < y < x ==> (Emitted(outs, y) <==> Selected(doc, init + MasksFrom(doc, outs, y), y)))
    && (forall i :: 0 <= i < |outs| ==> Written(doc, outs[i]))
  }

  /**
   * No xref below `x` was an image object, outside the mask set at its visit,
   * whose extraction raised something other than ValueError: only that one
   * exception is caught, so any other escapes the scan.
   */
  ghost predicate NothingSwallowed(doc: Document, init: set<nat>, x: nat, outs: seq<Output>)
  {
    forall y :: (0 < y < x && y < doc.XrefLength() && Contains(doc.XrefObject(y), IMAGE_MARKER)
                 && y !in init + MasksFrom(doc, outs, y)) ==>
      doc.ExtractImage(y) != RaisesOtherError
  }

  /** The progress reports for xrefs 1 .. k, or none when no callback is supplied. */
  function Progress(reportProgress: bool, k: nat, total: nat): (ticks: seq<Tick>)
  {
    if reportProgress then seq(k, i requires 0 <= i < k => Tick(i + 1, total)) else []
  }

  /** The scan state just before visiting `x`. */
  ghost predicate Scanned(doc: Document, reportProgress: bool, init: set<nat>, x: nat, st: Scan)
    requires 0 < x
  {
    && Emissions(doc, init, x, st.outputs)
    && NothingSwallowed(doc, init, x, st.outputs)
    && st.count == |st.outputs|
    && st.smasks == init + MasksFrom(doc, st.outputs, x)
    && st.progress == Progress(reportProgress, x - 1, doc.XrefLength())
  }

  /** The scan state left behind when visiting `x` raised `e`. */
  ghost predicate StoppedAt(doc: Document, reportProgress: bool, init: set<nat>, x: nat, st: Scan, e: RunError)
  {
    && 0 < x < doc.XrefLength()
    && ErrorXref(e) == x
    && Emissions(doc, init, x, st.outputs)
    && NothingSwallowed(doc, init, x, st.outputs)
    && st.count == |st.outputs|
    && st.smasks == init + MasksFrom(doc, st.outputs, x) + (if e.MaskUnreadable? then {e.mask} else {})
    && (e.ExtractionFailed? ==> Contains(doc.XrefObject(x), IMAGE_MARKER) && doc.ExtractImage(x) == RaisesOtherError)
    && (e.MaskUnreadable? ==> ReferencesMask(doc, x, e.mask) && !doc.ExtractImage(e.mask).Extracted?)
    && st.progress == Progress(reportProgress, x, doc.XrefLength())
  }

  /** One past the last xref visited by a completed scan. */
  function EndXref(doc: Document): (x: nat)
  {
    if doc.XrefLength() == 0 then 1 else doc.XrefLength()
  }

  ghost predicate RunSound(doc: Document, reportProgress: bool, init: set<nat>, run: Run)
  {
    match run
    case Completed(s) => Scanned(doc, reportProgress, init, EndXref(doc), s)
    case Aborted(s, e) => StoppedAt(doc, reportProgress, init, ErrorXref(e), s, e)
  }

  lemma {:induction false} MasksFromBound(doc: Document, outs: seq<Output>, b: nat, b': nat)
    requires forall i :: 0 <= i < |outs| ==> outs[i].xref < b
    requires b <= b'
    ensures MasksFrom(doc, outs, b) == MasksFrom(doc, outs, b')
  {
    if |outs| > 0 {
      MasksFromBound(doc, outs[..|outs| - 1], b, b');
    }
  }

  lemma MasksFromAppend(doc: Document, outs: seq<Output>, o: Output, b: nat)
    ensures MasksFrom(doc, outs + [o], b) == MasksFrom(doc, outs, b) + (if o.xref < b then MaskOf(doc, o.xref) else {})
  {
    assert (outs + [o])[..|outs|] == outs;
  }

  lemma EmittedAppend(outs: seq<Output>, o: Output, y: nat)
    ensures Emitted(outs + [o], y) <==> Emitted(outs, y) || o.xref == y
  {
    if Emitted(outs, y) {
      var i :| 0 <= i < |outs| && outs[i].xref == y;
      assert (outs + [o])[i].xref == y;
    }
    if o.xref == y {
      assert (outs + [o])[|outs|].xref == y;
    }
  }

  lemma ProcessIgnoresMasks(doc: Document, xref: nat, a: set<nat>, b: set<nat>)
    requires 0 < xref < doc.XrefLength()
    ensures ProcessImage(doc, xref, a).outcome == ProcessImage(doc, xref, b).outcome
  {
  }

  /** Appending the output of a selected xref keeps the emission invariant one step further. */
  lemma EmitKeepsEmissions(doc: Document, init: set<nat>, x: nat, outs: seq<Output>, img: ImageOutput)
    requires 0 < x < doc.XrefLength()
    requires Emissions(doc, init, x, outs)
    requires Selected(doc, init + MasksFrom(doc, outs, x), x)
    requires ProcessImage(doc, x, {}).outcome == Ok(img)
    ensures Emissions(doc, init, x + 1, outs + [Output(x, img)])
    ensures MasksFrom(doc, outs + [Output(x, img)], x + 1) == MasksFrom(doc, outs, x) + MaskOf(doc, x)
  {
    var o := Output(x, img);
    var outs' := outs + [o];
    MasksFromBound(doc, outs, x, x + 1);
    MasksFromAppend(doc, outs, o, x + 1);
    EmitKeepsSelection(doc, init, x, outs, o);
    EmitKeepsOrder(doc, x, outs, o);
  }

  /** The order and content half of `EmitKeepsEmissions`. */
  lemma EmitKeepsOrder(doc: Document, x: nat, outs: seq<Output>, o: Output)
    requires o.xref == x && Written(doc, o)
    requires forall i :: 0 <= i < |outs| ==> 0 < outs[i].xref < x
    requires Increasing(outs)
    requires forall i :: 0 <= i < |outs| ==> Written(doc, outs[i])
    ensures forall i :: 0 <= i < |outs + [o]| ==> 0 < (outs + [o])[i].xref < x + 1
    ensures Increasing(outs + [o])
    ensures forall i :: 0 <= i < |outs + [o]| ==> Written(doc, (outs + [o])[i])
  {
    var outs' := outs + [o];
    assert forall i :: 0 <= i < |outs| ==> outs'[i] == outs[i];
    assert outs'[|outs|] == o;
  }

  /** The selection half of `EmitKeepsEmissions`: emitted exactly when selected, one xref further. */
  lemma EmitKeepsSelection(doc: Document, init: set<nat>, x: nat, outs: seq<Output>, o: Output)
    requires 0 < x < doc.XrefLength() && o.xref == x
    requires forall i :: 0 <= i < |outs| ==> 0 < outs[i].xref < x
    requires forall y :: 0 < y < x ==> (Emitted(outs, y) <==> Selected(doc, init + MasksFrom(doc, outs, y), y))
    requires Selected(doc, init + MasksFrom(doc, outs, x), x)
    ensures forall y :: 0 < y < x + 1 ==>
      (Emitted(outs + [o], y) <==> Selected(doc, init + MasksFrom(doc, outs + [o], y), y))
  {
    forall y | 0 < y < x + 1
      ensures Emitted(outs + [o], y) <==> Selected(doc, init + MasksFrom(doc, outs + [o], y), y)
    {
      EmittedAppend(outs, o, y);
      MasksFromAppend(doc, outs, o, y);
    }
  }

  /** Skipping a non-selected xref keeps the emission invariant one step further. */
  lemma SkipKeepsEmissions(doc: Document, init: set<nat>, x: nat, outs: seq<Output>)
    requires 0 < x < doc.XrefLength()
    requires Emissions(doc, init, x, outs)
    requires !Selected(doc, init + MasksFrom(doc, outs, x), x)
    ensures Emissions(doc, init, x + 1, outs)
    ensures MasksFrom(doc, outs, x + 1) == MasksFrom(doc, outs, x)
  {
    MasksFromBound(doc, outs, x, x + 1);
    assert !Emitted(outs, x);
  }

  /** Skipping `x`, which did not escape, keeps `NothingSwallowed` one xref further. */
  lemma SkipKeepsNothingSwallowed(doc: Document, init: set<nat>, x: nat, outs: seq<Output>)
    requires NothingSwallowed(doc, init, x, outs)
    requires (0 < x < doc.XrefLength() && Contains(doc.XrefObject(x), IMAGE_MARKER)
              && x !in init + MasksFrom(doc, outs, x)) ==> doc.ExtractImage(x) != RaisesOtherError
    ensures NothingSwallowed(doc, init, x + 1, outs)
  {
  }

  /** Writing an image for `x`, which extracted, keeps `NothingSwallowed` one xref further. */
  lemma EmitKeepsNothingSwallowed(doc: Document, init: set<nat>, x: nat, outs: seq<Output>, o: Output)
    requires NothingSwallowed(doc, init, x, outs)
    requires o.xref == x && doc.ExtractImage(x).Extracted?
    ensures NothingSwallowed(doc, init, x + 1, outs + [o])
  {
    forall y | (0 < y < x + 1 && y < doc.XrefLength() && Contains(doc.XrefObject(y), IMAGE_MARKER)
                && y !in init + MasksFrom(doc, outs + [o], y))
      ensures doc.ExtractImage(y) != RaisesOtherError
    {
      MasksFromAppend(doc, outs, o, y);
    }
  }

  /** One loop iteration keeps the scan invariant, or stops with the matching error state. */
  lemma VisitKeepsScanned(doc: Document, cb: bool, init: set<nat>, x: nat, st: Scan)
    requires 0 < x < doc.XrefLength()
    requires Scanned(doc, cb, init, x, st)
    ensures match VisitXref(doc, cb, x, st)
      case Continue(s) => Scanned(doc, cb, init, x + 1, s)
      case Stop(s, e) => StoppedAt(doc, cb, init, x, s, e)
  {
    var v := IsValidImage(doc, x, st.smasks);
    if v == Ok(false) {
      SkipStep(doc, cb, init, x, st);
    } else if v == Ok(true) && ProcessImage(doc, x, st.smasks).outcome.Ok? {
      EmitStep(doc, cb, init, x, st);
    } else {
      StopStep(doc, cb, init, x, st);
    }
  }

  /** The step of `VisitKeepsScanned` for an xref that classification rejects. */
  lemma SkipStep(doc: Document, cb: bool, init: set<nat>, x: nat, st: Scan)
    requires 0 < x < doc.XrefLength()
    requires Scanned(doc, cb, init, x, st)
    requires IsValidImage(doc, x, st.smasks) == Ok(false)
    ensures VisitXref(doc, cb, x, st).Continue?
    ensures Scanned(doc, cb, init, x + 1, VisitXref(doc, cb, x, st).scan)
  {
    var st1 := if cb then st.(progress := st.progress + [Tick(x, doc.XrefLength())]) else st;
    assert st1.progress == Progress(cb, x, doc.XrefLength());
    SkipKeepsEmissions(doc, init, x, st.outputs);
    SkipKeepsNothingSwallowed(doc, init, x, st.outputs);
    assert VisitXref(doc, cb, x, st) == Continue(st1);
  }

  /** The step of `VisitKeepsScanned` for an xref that is selected and processed. */
  lemma EmitStep(doc: Document, cb: bool, init: set<nat>, x: nat, st: Scan)
    requires 0 < x < doc.XrefLength()
    requires Scanned(doc, cb, init, x, st)
    requires IsValidImage(doc, x, st.smasks) == Ok(true)
    requires ProcessImage(doc, x, st.smasks).outcome.Ok?
    ensures VisitXref(doc, cb, x, st).Continue?
    ensures Scanned(doc, cb, init, x + 1, VisitXref(doc, cb, x, st).scan)
  {
    ProcessIgnoresMasks(doc, x, st.smasks, {});
    var img := ProcessImage(doc, x, {}).outcome.value;
    EmitVisit(doc, cb, x, st, img);
    EmitScanned(doc, cb, init, x, st, img);
  }

  /** What visiting a selected, processed xref leaves behind. */
  lemma EmitVisit(doc: Document, cb: bool, x: nat, st: Scan, img: ImageOutput)
    requires 0 < x < doc.XrefLength()
    requires IsValidImage(doc, x, st.smasks) == Ok(true)
    requires ProcessImage(doc, x, st.smasks).outcome == Ok(img)
    ensures VisitXref(doc, cb, x, st) == Continue(Scan(
      st.smasks + MaskOf(doc, x), st.count + 1, st.outputs + [Output(x, img)],
      st.progress + (if cb then [Tick(x, doc.XrefLength())] else [])))
  {
  }

  /** The invariant for the state `EmitVisit` describes. */
  lemma EmitScanned(doc: Document, cb: bool, init: set<nat>, x: nat, st: Scan, img: ImageOutput)
    requires 0 < x < doc.XrefLength()
    requires Scanned(doc, cb, init, x, st)
    requires Selected(doc, init + MasksFrom(doc, st.outputs, x), x)
    requires ProcessImage(doc, x, {}).outcome == Ok(img)
    ensures Scanned(doc, cb, init, x + 1, Scan(
      st.smasks + MaskOf(doc, x), st.count + 1, st.outputs + [Output(x, img)],
      st.progress + (if cb then [Tick(x, doc.XrefLength())] else [])))
  {
    var outs := st.outputs;
    var o := Output(x, img);
    assert st.progress + (if cb then [Tick(x, doc.XrefLength())] else []) == Progress(cb, x, doc.XrefLength());
    EmitKeepsEmissions(doc, init, x, outs, img);
    EmitKeepsNothingSwallowed(doc, init, x, outs, o);
  }

  /** The step of `VisitKeepsScanned` for an xref whose classification or processing fails. */
  lemma StopStep(doc: Document, cb: bool, init: set<nat>, x: nat, st: Scan)
    requires 0 < x < doc.XrefLength()
    requires Scanned(doc, cb, init, x, st)
    requires IsValidImage(doc, x, st.smasks) != Ok(false)
    requires IsValidImage(doc, x, st.smasks) == Ok(true) ==> ProcessImage(doc, x, st.smasks).outcome.Err?
    ensures VisitXref(doc, cb, x, st).Stop?
    ensures StoppedAt(doc, cb, init, x, VisitXref(doc, cb, x, st).scan, VisitXref(doc, cb, x, st).error)
  {
    var st1 := if cb then st.(progress := st.progress + [Tick(x, doc.XrefLength())]) else st;
    assert st1.progress == Progress(cb, x, doc.XrefLength());
    var v := IsValidImage(doc, x, st.smasks);
    if v == Ok(true) {
      var p := ProcessImage(doc, x, st.smasks);
      assert p.smasks == st.smasks + MaskOf(doc, x);
      assert p.outcome.error.MaskUnreadable? ==> ReferencesMask(doc, x, p.outcome.error.mask);
      assert p.outcome.error.MaskUnreadable?;
      assert VisitXref(doc, cb, x, st) == Stop(st1.(smasks := p.smasks), p.outcome.error);
    } else {
      assert VisitXref(doc, cb, x, st) == Stop(st1, v.error);
    }
  }

  /** One visit of `y` from a state satisfying `inv` leads to `inv` at `y + 1`, or to `stop` at `y`. */
  predicate StepPreserves(doc: Document, cb: bool, y: nat, s: Scan,
                          inv: (nat, Scan) -> bool, stop: (nat, Scan, RunError) -> bool)
    requires 0 < y < doc.XrefLength()
  {
    match VisitXref(doc, cb, y, s)
    case Continue(s') => inv(y + 1, s')
    case Stop(s', e) => stop(y, s', e)
  }

  /**
   * Induction over the scan loop: an invariant that every visit preserves (or
   * turns into the stop condition) holds at the end of every run.
   */
  lemma {:induction false} ScanInduction(doc: Document, cb: bool, x: nat, st: Scan,
                                         inv: (nat, Scan) -> bool, stop: (nat, Scan, RunError) -> bool)
    requires 0 < x <= EndXref(doc)
    requires inv(x, st)
    requires forall y: nat, s: Scan :: 0 < y < doc.XrefLength() && inv(y, s) ==> StepPreserves(doc, cb, y, s, inv, stop)
    ensures match ScanFrom(doc, cb, x, st)
      case Completed(s) => inv(EndXref(doc), s)
      case Aborted(s, e) => stop(ErrorXref(e), s, e)
    decreases doc.XrefLength() - x
  {
    if x < doc.XrefLength() {
      assert StepPreserves(doc, cb, x, st, inv, stop);
      match VisitXref(doc, cb, x, st)
      case Continue(s) =>
        ScanInduction(doc, cb, x + 1, s, inv, stop);
        assert ScanFrom(doc, cb, x, st) == ScanFrom(doc, cb, x + 1, s);
      case Stop(s, e) =>
        assert ScanFrom(doc, cb, x, st) == Aborted(s, e);
    } else {
      assert x == EndXref(doc);
    }
  }

  lemma ScanFromSound(doc: Document, cb: bool, init: set<nat>, x: nat, st: Scan)
    requires 0 < x <= EndXref(doc)
    requires Scanned(doc, cb, init, x, st)
    ensures RunSound(doc, cb, init, ScanFrom(doc, cb, x, st))
  {
    var inv := (y: nat, s: Scan) => 0 < y && Scanned(doc, cb, init, y, s);
    var stop := (y: nat, s: Scan, e: RunError) => StoppedAt(doc, cb, init, y, s, e);
    forall y: nat, s: Scan | 0 < y < doc.XrefLength() && inv(y, s)
      ensures StepPreserves(doc, cb, y, s, inv, stop)
    {
      VisitKeepsScanned(doc, cb, init, y, s);
    }
    ScanInduction(doc, cb, x, st, inv, stop);
  }

  /** The scan invariant holds of every run of `extract_images`. */
  lemma ExtractImagesSound(ex: Extractor, doc: Document, cb: bool)
    ensures RunSound(doc, cb, ex.smasks, ExtractImages(ex, doc, cb))
  {
    var st := Scan(ex.smasks, 0, [], []);
    assert Scanned(doc, cb, ex.smasks, 1, st);
    ScanFromSound(doc, cb, ex.smasks, 1, st);
  }

  lemma {:induction false} MaskOfWithin(doc: Document, outs: seq<Output>, i: nat, b: nat)
    requires i < |outs|
    requires outs[i].xref < b
    ensures MaskOf(doc, outs[i].xref) <= MasksFrom(doc, outs, b)
  {
    if i < |outs| - 1 {
      MaskOfWithin(doc, outs[..|outs| - 1], i, b);
    }
  }

  lemma {:induction false} MasksFromReferenced(doc: Document, outs: seq<Output>, b: nat)
    requires forall i :: 0 <= i < |outs| ==> Selected(doc, {}, outs[i].xref)
    ensures MasksFrom(doc, outs, b) <= ReferencedMasks(doc)
  {
    if |outs| > 0 {
      MasksFromReferenced(doc, outs[..|outs| - 1], b);
      var x := outs[|outs| - 1].xref;
      if doc.ExtractImage(x).Extracted? && doc.ExtractImage(x).record.smask > 0 {
        assert ReferencesMask(doc, x, doc.ExtractImage(x).record.smask);
      }
    }
  }

  /**
   * Progress is reported for xrefs 1, 2, ... in ascending order, once each,
   * with the table length as total, before the xref is classified; xref 0
   * is never reported. A completed run reports every xref of the table; an
   * aborted one stops at the xref that raised.
   */
  lemma ProgressTrace(ex: Extractor, doc: Document, cb: bool)
    ensures !cb ==> ExtractImages(ex, doc, cb).scan.progress == []
    ensures cb && ExtractImages(ex, doc, cb).Completed? ==>
      ExtractImages(ex, doc, cb).scan.progress == seq(EndXref(doc) - 1, i requires 0 <= i < EndXref(doc) - 1 => Tick(i + 1, doc.XrefLength()))
    ensures cb && ExtractImages(ex, doc, cb).Aborted? ==>
      var run := ExtractImages(ex, doc, cb);
      && 0 < ErrorXref(run.error) < doc.XrefLength()
      && run.scan.progress == seq(ErrorXref(run.error), i requires 0 <= i < ErrorXref(run.error) => Tick(i + 1, doc.XrefLength()))
    ensures forall t :: t in ExtractImages(ex, doc, cb).scan.progress ==>
      0 < t.current < doc.XrefLength() && t.total == doc.XrefLength()
  {
    ExtractImagesSound(ex, doc, cb);
  }

  /**
   * An xref that is in the mask set when it is visited writes nothing: in
   * particular no xref of the instance's mask set at the start of the run, and
   * no soft mask that an earlier output of the same run referenced.
   */
  lemma MaskedXrefsNeverEmitted(ex: Extractor, doc: Document, cb: bool)
    ensures var outs := ExtractImages(ex, doc, cb).scan.outputs;
      forall i :: 0 <= i < |outs| ==> outs[i].xref !in ex.smasks + MasksFrom(doc, outs, outs[i].xref)
    ensures var outs := ExtractImages(ex, doc, cb).scan.outputs;
      forall i, j :: 0 <= i < j < |outs| ==> outs[j].xref !in MaskOf(doc, outs[i].xref)
  {
    ExtractImagesSound(ex, doc, cb);
    var outs := ExtractImages(ex, doc, cb).scan.outputs;
    forall i | 0 <= i < |outs|
      ensures outs[i].xref !in ex.smasks + MasksFrom(doc, outs, outs[i].xref)
    {
      assert Emitted(outs, outs[i].xref);
    }
    forall i, j | 0 <= i < j < |outs|
      ensures outs[j].xref !in MaskOf(doc, outs[i].xref)
    {
      MaskOfWithin(doc, outs, i, outs[j].xref);
    }
  }

  /**
   * The mask set only grows, and what it gains are soft masks referenced by
   * image objects of the document; xref 0 is never added.
   */
  lemma MaskSetGrowth(ex: Extractor, doc: Document, cb: bool)
    ensures ex.smasks <= ExtractImages(ex, doc, cb).scan.smasks
    ensures ExtractImages(ex, doc, cb).scan.smasks <= ex.smasks + ReferencedMasks(doc)
    ensures 0 in ExtractImages(ex, doc, cb).scan.smasks ==> 0 in ex.smasks
  {
    ExtractImagesSound(ex, doc, cb);
    var run := ExtractImages(ex, doc, cb);
    var outs := run.scan.outputs;
    forall i | 0 <= i < |outs|
      ensures Selected(doc, {}, outs[i].xref)
    {
      assert Emitted(outs, outs[i].xref);
    }
    MasksFromReferenced(doc, outs, if run.Completed? then EndXref(doc) else ErrorXref(run.error));
    if run.Aborted? && run.error.MaskUnreadable? {
      assert run.error.mask in ReferencedMasks(doc);
    }
  }

  /**
   * A freshly constructed extractor knows no mask, so its first run on a
   * document records only soft masks that document's images name, and in a
   * completed run an xref is written exactly when it is an image that
   * extracts and no earlier written image named it as its soft mask.
   */
  lemma FirstRun(doc: Document, cb: bool, y: nat)
    ensures ExtractImages(NewExtractor(), doc, cb).scan.smasks <= ReferencedMasks(doc)
    ensures var run := ExtractImages(NewExtractor(), doc, cb);
      (run.Completed? && 0 < y < doc.XrefLength()) ==>
        (Emitted(run.scan.outputs, y) <==>
          && Contains(doc.XrefObject(y), IMAGE_MARKER)
          && y !in MasksFrom(doc, run.scan.outputs, y)
          && doc.ExtractImage(y).Extracted?)
  {
    var ex := NewExtractor();
    MaskSetGrowth(ex, doc, cb);
    if ExtractImages(ex, doc, cb).Completed? && 0 < y < doc.XrefLength() {
      EmittedIffSelected(ex, doc, cb, y);
      assert ex.smasks + MasksFrom(doc, ExtractImages(ex, doc, cb).scan.outputs, y)
          == MasksFrom(doc, ExtractImages(ex, doc, cb).scan.outputs, y);
    }
  }

  /**
   * The returned count is the number of images written; they are written in
   * ascending xref order, each to its own file `img_{xref}.{ext}`, and each is
   * exactly what processing its xref delivers.
   */
  lemma OutputsWellFormed(ex: Extractor, doc: Document, cb: bool)
    ensures ExtractImages(ex, doc, cb).scan.count == |ExtractImages(ex, doc, cb).scan.outputs|
    ensures var outs := ExtractImages(ex, doc, cb).scan.outputs;
      forall i, j :: 0 <= i < j < |outs| ==> 0 < outs[i].xref < outs[j].xref < doc.XrefLength()
    ensures var outs := ExtractImages(ex, doc, cb).scan.outputs;
      forall i, j :: 0 <= i < j < |outs| ==> outs[i].FileName() != outs[j].FileName()
    ensures var outs := ExtractImages(ex, doc, cb).scan.outputs;
      forall i :: 0 <= i < |outs| ==> Written(doc, outs[i])
  {
    ExtractImagesSound(ex, doc, cb);
    var outs := ExtractImages(ex, doc, cb).scan.outputs;
    forall i, j | 0 <= i < j < |outs|
      ensures outs[i].FileName() != outs[j].FileName()
    {
      if outs[i].FileName() == outs[j].FileName() {
        FileNames.FileNameInjective(outs[i].xref, outs[i].image.ext, outs[j].xref, outs[j].image.ext);
      }
    }
  }

  /**
   * A completed run writes an image for exactly those xrefs that carry the
   * image marker, extract without raising, and are not in the mask set as it
   * stands when they are visited.
   */
  lemma EmittedIffSelected(ex: Extractor, doc: Document, cb: bool, y: nat)
    requires ExtractImages(ex, doc, cb).Completed?
    requires 0 < y < doc.XrefLength()
    ensures var outs := ExtractImages(ex, doc, cb).scan.outputs;
      Emitted(outs, y) <==>
        && Contains(doc.XrefObject(y), IMAGE_MARKER)
        && y !in ex.smasks + MasksFrom(doc, outs, y)
        && doc.ExtractImage(y).Extracted?
  {
    ExtractImagesSound(ex, doc, cb);
  }

  /**
   * Every written image is in a deliverable format, unless `recover_pix` found
   * none of its markers and fell back to plain extraction. An output labelled
   * with four channels comes only from that fallback, and a four-component
   * record is written either converted, as a stencil, fused unconverted with
   * its soft mask, or through that fallback.
   */
  lemma WrittenFormats(ex: Extractor, doc: Document, cb: bool)
    ensures var outs := ExtractImages(ex, doc, cb).scan.outputs;
      forall i :: 0 <= i < |outs| ==> Deliverable(doc, outs[i])
    ensures var outs := ExtractImages(ex, doc, cb).scan.outputs;
      forall i :: 0 <= i < |outs| && outs[i].image.colorspace == Channels(CMYK_N) ==>
        outs[i].image.ext !in VALID_FORMATS
    ensures var outs := ExtractImages(ex, doc, cb).scan.outputs;
      forall i :: (0 <= i < |outs| && 0 < outs[i].xref < doc.XrefLength()
                   && doc.ExtractImage(outs[i].xref).Extracted?
                   && doc.ExtractImage(outs[i].xref).record.colorspace == CMYK_N) ==>
        CmykOutcome(doc, outs[i].xref, doc.ExtractImage(outs[i].xref).record, outs[i].image)
  {
    ExtractImagesSound(ex, doc, cb);
    var outs := ExtractImages(ex, doc, cb).scan.outputs;
    forall i | 0 <= i < |outs|
      ensures Deliverable(doc, outs[i])
    {
      assert Written(doc, outs[i]);
    }
  }

  /**
   * A run aborts only when the library fails beyond a skip: classification
   * of some image object raises something other than ValueError, or the soft
   * mask an image refers to cannot be extracted.
   */
  lemma AbortCauses(ex: Extractor, doc: Document, cb: bool)
    ensures var run := ExtractImages(ex, doc, cb);
      run.Aborted? && run.error.ExtractionFailed? ==>
        && 0 < run.error.xref < doc.XrefLength()
        && Contains(doc.XrefObject(run.error.xref), IMAGE_MARKER)
        && doc.ExtractImage(run.error.xref) == RaisesOtherError
    ensures var run := ExtractImages(ex, doc, cb);
      run.Aborted? && run.error.MaskUnreadable? ==>
        ReferencesMask(doc, run.error.host, run.error.mask) && !doc.ExtractImage(run.error.mask).Extracted?
    // conversely, no such failure is swallowed: a completed run met none, and an aborted one none before its cause
    ensures var run := ExtractImages(ex, doc, cb);
      var outs := run.scan.outputs;
      forall y :: (&& 0 < y < doc.XrefLength()
                   && (run.Aborted? ==> y < ErrorXref(run.error))
                   && Contains(doc.XrefObject(y), IMAGE_MARKER)
                   && y !in ex.smasks + MasksFrom(doc, outs, y)) ==>
        doc.ExtractImage(y) != RaisesOtherError
  {
    ExtractImagesSound(ex, doc, cb);
  }

  /** `st` after progress reports for xrefs x .. y-1 (when a callback is supplied). */
  function Reported(cb: bool, st: Scan, x: nat, y: nat, total: nat): (st': Scan)
    requires x <= y
  {
    if cb && x < y then st.(progress := st.progress + seq(y - x, i requires 0 <= i < y - x => Tick(x + i, total))) else st
  }

  /** A stretch of objects without the image marker only advances the progress trace. */
  lemma {:induction false} SkipNonImages(doc: Document, cb: bool, x: nat, y: nat, st: Scan)
    requires 0 < x <= y <= doc.XrefLength()
    requires forall z :: x <= z < y ==> !Contains(doc.XrefObject(z), IMAGE_MARKER)
    ensures ScanFrom(doc, cb, x, st) == ScanFrom(doc, cb, y, Reported(cb, st, x, y, doc.XrefLength()))
    decreases y - x
  {
    if x < y {
      var st1 := Reported(cb, st, x, x + 1, doc.XrefLength());
      assert VisitXref(doc, cb, x, st) == Continue(st1);
      assert ScanFrom(doc, cb, x, st) == ScanFrom(doc, cb, x + 1, st1);
      SkipNonImages(doc, cb, x + 1, y, st1);
      if cb && x + 1 < y {
        assert st1.progress + seq(y - (x + 1), i requires 0 <= i < y - (x + 1) => Tick(x + 1 + i, doc.XrefLength()))
            == st.progress + seq(y - x, i requires 0 <= i < y - x => Tick(x + i, doc.XrefLength()));
      }
    }
  }
}
