/**
 * The Qt scanner's background worker: converting SDK results into
 * `BarcodeResult` values, the signals each slot emits, and the
 * license/template state it keeps.
 */
module BarcodeWorker {
  import opened Wrappers
  import opened Sdk

  /** A `BarcodeResult`: format, text and the location points. */
  datatype BarcodeResult = BarcodeResult(format: string, text: string, points: seq<Point>)

  // ---------------------------------------------------------------------------
  // convertResults

  /** One converted item: `QString::fromUtf8` of a null string is empty; the four corners in order. */
  function ToResult(item: BarcodeItem): (b: BarcodeResult)
    ensures b.format == (if item.format.Some? then item.format.value else "")
    ensures b.text == (if item.text.Some? then item.text.value else "")
    ensures |b.points| == 4 && b.points == item.location.Corners()
  {
    BarcodeResult(item.format.GetOr(""), item.text.GetOr(""), item.location.Corners())
  }

  /** The non-null items converted in index order (reference definition). */
  function Converted(items: seq<Option<BarcodeItem>>): seq<BarcodeResult>
  {
    if items == [] then []
    else
      var last := items[|items| - 1];
      Converted(items[..|items| - 1]) + (if last.Some? then [ToResult(last.value)] else [])
  }

  /** The indices of the non-null items, ascending (reference definition). */
  function PresentIndices(items: seq<Option<BarcodeItem>>): seq<nat>
  {
    if items == [] then []
    else PresentIndices(items[..|items| - 1]) + (if items[|items| - 1].Some? then [|items| - 1] else [])
  }

  /** What `convertResults` returns: nothing for a null or failed result. */
  function Conversion(r: Option<DecodedBarcodes>): seq<BarcodeResult>
  {
    if r.None? || r.value.errorCode != EcOk then [] else Converted(r.value.items)
  }

  /** `convertResults`: walks the items, skipping null ones. */
  method ConvertResults(r: Option<DecodedBarcodes>) returns (results: seq<BarcodeResult>)
    ensures r.None? || r.value.errorCode != EcOk ==> results == []
    ensures r.Some? && r.value.errorCode == EcOk ==> results == Converted(r.value.items)
  {
    results := [];
    if r.None? || r.value.errorCode != EcOk {
      return;
    }
    var items := r.value.items;
    var i := 0;
    while i < |items|
      invariant 0 <= i <= |items|
      invariant results == Converted(items[..i])
    {
      assert items[..i + 1][..i] == items[..i];
      var item := items[i];
      if item.Some? {
        results := results + [ToResult(item.value)];
      }
      i := i + 1;
    }
    assert items[..|items|] == items;
  }

  /**
   * The converted list is exactly the non-null items, in index order: its
   * length is the number of non-null items, the k-th result comes from the
   * k-th non-null item, and those item indices ascend and cover every
   * non-null slot.
   */
  lemma ConvertedIsPresentItems(items: seq<Option<BarcodeItem>>)
    ensures |Converted(items)| == |PresentIndices(items)|
    ensures forall k :: 0 <= k < |PresentIndices(items)| ==>
              PresentIndices(items)[k] < |items| && items[PresentIndices(items)[k]].Some?
              && Converted(items)[k] == ToResult(items[PresentIndices(items)[k]].value)
    ensures forall k, m :: 0 <= k < m < |PresentIndices(items)| ==> PresentIndices(items)[k] < PresentIndices(items)[m]
    ensures forall i :: 0 <= i < |items| && items[i].Some? ==> i in PresentIndices(items)
  {
    PresentIndicesShape(items);
    ConvertedAtIndices(items);
  }

  /** The present indices are in range, name non-null slots, ascend, and cover every non-null slot. */
  lemma {:induction false} PresentIndicesShape(items: seq<Option<BarcodeItem>>)
    ensures forall k :: 0 <= k < |PresentIndices(items)| ==>
              PresentIndices(items)[k] < |items| && items[PresentIndices(items)[k]].Some?
    ensures forall k, m :: 0 <= k < m < |PresentIndices(items)| ==> PresentIndices(items)[k] < PresentIndices(items)[m]
    ensures forall i :: 0 <= i < |items| && items[i].Some? ==> i in PresentIndices(items)
    decreases |items|
  {
    if items != [] {
      var n := |items|;
      var front := items[..n - 1];
      PresentIndicesShape(front);
      var ix := PresentIndices(front);
      var all := PresentIndices(items);
      assert all == ix + (if items[n - 1].Some? then [n - 1] else []);
      forall k | 0 <= k < |all|
        ensures all[k] < n && items[all[k]].Some?
      {
        if k < |ix| {
          assert all[k] == ix[k];
          assert front[ix[k]] == items[ix[k]];
        }
      }
      forall k, m | 0 <= k < m < |all|
        ensures all[k] < all[m]
      {
        assert all[k] == ix[k];
      }
      forall i | 0 <= i < n && items[i].Some?
        ensures i in all
      {
        if i < n - 1 {
          assert front[i] == items[i];
          assert i in ix;
        }
      }
    }
  }

  /** The k-th converted result comes from the item at the k-th present index. */
  lemma {:induction false} ConvertedAtIndices(items: seq<Option<BarcodeItem>>)
    ensures |Converted(items)| == |PresentIndices(items)|
    ensures forall k :: 0 <= k < |PresentIndices(items)| ==>
              PresentIndices(items)[k] < |items| && items[PresentIndices(items)[k]].Some?
              && Converted(items)[k] == ToResult(items[PresentIndices(items)[k]].value)
    decreases |items|
  {
    PresentIndicesShape(items);
    if items != [] {
      var n := |items|;
      var front := items[..n - 1];
      ConvertedAtIndices(front);
      var ix := PresentIndices(front);
      var all := PresentIndices(items);
      var conv := Converted(items);
      assert all == ix + (if items[n - 1].Some? then [n - 1] else []);
      assert conv == Converted(front) + (if items[n - 1].Some? then [ToResult(items[n - 1].value)] else []);
      forall k | 0 <= k < |all|
        ensures conv[k] == ToResult(items[all[k]].value)
      {
        if k < |ix| {
          assert conv[k] == Converted(front)[k];
          assert front[ix[k]] == items[ix[k]];
        }
      }
    }
  }

  // ---------------------------------------------------------------------------
  // Signals and worker state

  /** A signal the worker emits. */
  datatype Signal =
    | ResultsReady(results: seq<BarcodeResult>)
    | LicenseStatusChanged(status: string, isValid: bool)

  /** The worker's fields: `m_initialized`, whether `m_router` is non-null, the license key and the template. */
  datatype Worker = Worker(initialized: bool, hasRouter: bool, licenseKey: string, templateContent: string)
  {
    /** An initialised worker always has a router. */
    predicate Valid()
    {
      initialized ==> hasRouter
    }
  }

  /** The freshly constructed worker: uninitialised, no router, the built-in trial key. */
  function NewWorker(defaultKey: string): (w: Worker)
    ensures w.Valid() && !w.initialized && !w.hasRouter && w.licenseKey == defaultKey
  {
    Worker(false, false, defaultKey, "")
  }

  /** The state after a slot, the signals it emitted in order, and how many capture results it released. */
  datatype Step = Step(worker: Worker, signals: seq<Signal>, released: nat)

  /** The status signal for an `InitLicense` return code and its error message. */
  function LicenseSignal(licenseRet: int, errorMsg: string): (s: Signal)
    ensures s.LicenseStatusChanged? && (s.isValid <==> licenseRet == EcOk)
  {
    if licenseRet != EcOk then LicenseStatusChanged("License: Failed (" + errorMsg + ")", false)
    else LicenseStatusChanged("License: Valid", true)
  }

  /**
   * `initialize`: reports the license outcome, then creates the router. A
   * failed license does not stop initialisation; only a failed router
   * creation (the `catch`) leaves the worker uninitialised.
   */
  function Initialize(w: Worker, licenseRet: int, errorMsg: string, routerCreated: bool): (s: Step)
    requires w.Valid()
    ensures s.worker.Valid()
    ensures s.signals == [LicenseSignal(licenseRet, errorMsg)] && s.released == 0
    ensures s.worker.initialized <==> routerCreated
    ensures s.worker.licenseKey == w.licenseKey && s.worker.templateContent == w.templateContent
  {
    Step(w.(initialized := routerCreated, hasRouter := w.hasRouter || routerCreated),
         [LicenseSignal(licenseRet, errorMsg)], 0)
  }

  /** The part of `processImage` after the guard: capture, emit, release. */
  function CaptureStep(capture: Option<CapturedResult>): (s: (seq<Signal>, nat))
    ensures |s.0| == 1 && s.0[0].ResultsReady?
    ensures s.1 == (if capture.Some? then 1 else 0)
    ensures capture.None? || capture.value.errorCode != EcOk || capture.value.barcodes.None? ==> s.0 == [ResultsReady([])]
    ensures capture.Some? && capture.value.errorCode == EcOk && capture.value.barcodes.Some? ==>
      s.0 == [ResultsReady(Conversion(capture.value.barcodes))]
  {
    if capture.None? then ([ResultsReady([])], 0)
    else if capture.value.errorCode != EcOk then ([ResultsReady([])], 1)
    else if capture.value.barcodes.Some? then ([ResultsReady(Conversion(capture.value.barcodes))], 1)
    else ([ResultsReady([])], 1)
  }

  /** The number of `resultsReady` emissions in a signal list. */
  function ResultsCount(signals: seq<Signal>): nat
  {
    if signals == [] then 0
    else ResultsCount(signals[..|signals| - 1]) + (if signals[|signals| - 1].ResultsReady? then 1 else 0)
  }

  lemma {:induction false} ResultsCountAppend(a: seq<Signal>, b: seq<Signal>)
    ensures ResultsCount(a + b) == ResultsCount(a) + ResultsCount(b)
    decreases |b|
  {
    if b == [] {
      assert a + b == a;
    } else {
      assert (a + b)[..|a + b| - 1] == a + b[..|b| - 1];
      ResultsCountAppend(a, b[..|b| - 1]);
    }
  }

  /**
   * `processImage` as written: a null image on an initialised worker emits an
   * empty list and then, with no `return`, still converts the null image,
   * captures it and emits a second time. `capture` is what `Capture` returns.
   */
  function ProcessImageAsWritten(w: Worker, imageNull: bool, licenseRet: int, errorMsg: string,
                                 routerCreated: bool, capture: Option<CapturedResult>): (s: Step)
    requires w.Valid()
    ensures s.worker.Valid()
    ensures s.worker.licenseKey == w.licenseKey && s.worker.templateContent == w.templateContent
    ensures s.worker.initialized <==> w.initialized || routerCreated
    ensures s.released == 1 <==> capture.Some? && (w.initialized || routerCreated)
  {
    if !w.initialized || !w.hasRouter || imageNull then
      var init := if !w.initialized then Initialize(w, licenseRet, errorMsg, routerCreated) else Step(w, [], 0);
      if !init.worker.initialized then Step(init.worker, init.signals + [ResultsReady([])], 0)
      else
        var pre := init.signals + (if imageNull then [ResultsReady([])] else []);
        var (post, released) := CaptureStep(capture);
        Step(init.worker, pre + post, released)
    else
      var (post, released) := CaptureStep(capture);
      Step(w, post, released)
  }

  /** A null image reaching an initialised worker is answered twice. */
  lemma NullImageEmitsTwice(w: Worker, licenseRet: int, errorMsg: string, routerCreated: bool,
                            capture: Option<CapturedResult>)
    requires w.Valid() && w.initialized
    ensures ResultsCount(ProcessImageAsWritten(w, true, licenseRet, errorMsg, routerCreated, capture).signals) == 2
  {
    var post := CaptureStep(capture).0;
    ResultsCountAppend([ResultsReady([])], post);
    ResultsCountAppend([], [ResultsReady([])]);
    ResultsCountAppend([], post);
    assert [] + [ResultsReady([])] == [ResultsReady([])];
  }

  /** For a non-null image the code as written and the corrected one behave the same. */
  lemma AsWrittenAgreesOnImages(w: Worker, licenseRet: int, errorMsg: string, routerCreated: bool,
                                capture: Option<CapturedResult>)
    requires w.Valid()
    ensures ProcessImageAsWritten(w, false, licenseRet, errorMsg, routerCreated, capture)
         == ProcessImage(w, false, licenseRet, errorMsg, routerCreated, capture)
  {
  }

  /**
   * For a null image on a worker that ends up initialised, the code as written
   * answers as the corrected one does and then appends a whole capture of the
   * null image, releasing its result.
   */
  lemma AsWrittenNullAddsCapture(w: Worker, licenseRet: int, errorMsg: string, routerCreated: bool,
                                 capture: Option<CapturedResult>)
    requires w.Valid() && (w.initialized || routerCreated)
    ensures var asWritten := ProcessImageAsWritten(w, true, licenseRet, errorMsg, routerCreated, capture);
      var intended := ProcessImage(w, true, licenseRet, errorMsg, routerCreated, capture);
      && asWritten.worker == intended.worker
      && asWritten.signals == intended.signals + CaptureStep(capture).0
      && asWritten.released == intended.released + CaptureStep(capture).1
  {
  }

  /**
   * `processImage` with the evident intent: after the empty answer for a null
   * image it returns, so nothing is captured or released for it. A capture
   * result is released exactly when one was obtained for a non-null image on
   * an initialised worker, and a null image or a missing, failed or empty
   * capture answers with an empty list.
   */
  function ProcessImage(w: Worker, imageNull: bool, licenseRet: int, errorMsg: string,
                        routerCreated: bool, capture: Option<CapturedResult>): (s: Step)
    requires w.Valid()
    ensures s.worker.Valid()
    ensures s.worker.licenseKey == w.licenseKey && s.worker.templateContent == w.templateContent
    ensures |s.signals| >= 1 && s.signals[|s.signals| - 1].ResultsReady?
    ensures s.worker.initialized <==> w.initialized || routerCreated
    ensures s.released == 1 <==> capture.Some? && !imageNull && (w.initialized || routerCreated)
    ensures imageNull || capture.None? || capture.value.errorCode != EcOk || capture.value.barcodes.None?
      ==> s.signals[|s.signals| - 1] == ResultsReady([])
  {
    var init := if !w.initialized then Initialize(w, licenseRet, errorMsg, routerCreated) else Step(w, [], 0);
    if !init.worker.initialized || imageNull then Step(init.worker, init.signals + [ResultsReady([])], 0)
    else
      var (post, released) := CaptureStep(capture);
      Step(init.worker, init.signals + post, released)
  }

  /**
   * Every call answers exactly once, preceded by a license report only when
   * it had to initialise.
   */
  lemma ProcessImageAnswersOnce(w: Worker, imageNull: bool, licenseRet: int, errorMsg: string,
                                routerCreated: bool, capture: Option<CapturedResult>)
    requires w.Valid()
    ensures var s := ProcessImage(w, imageNull, licenseRet, errorMsg, routerCreated, capture);
      ResultsCount(s.signals) == 1 && |s.signals| == (if w.initialized then 1 else 2)
  {
    var s := ProcessImage(w, imageNull, licenseRet, errorMsg, routerCreated, capture);
    var pre := if w.initialized then [] else [LicenseSignal(licenseRet, errorMsg)];
    var post := CaptureStep(capture).0;
    assert |post| == 1;
    assert s.signals == pre + (if imageNull || !(w.initialized || routerCreated) then [ResultsReady([])] else post);
    var last := s.signals[|s.signals| - 1];
    if w.initialized {
      assert s.signals == [last];
      CountOfPair([], last);
    } else {
      var license := LicenseSignal(licenseRet, errorMsg);
      assert s.signals == [license, last];
      CountOfPair([license], last);
    }
  }

  /** A status report (or nothing) followed by one answer holds one answer. */
  lemma CountOfPair(pre: seq<Signal>, last: Signal)
    requires |pre| <= 1 && (pre != [] ==> pre[0].LicenseStatusChanged?)
    requires last.ResultsReady?
    ensures ResultsCount(pre + [last]) == 1
  {
    var all := pre + [last];
    assert all[..|all| - 1] == pre;
    if pre != [] {
      assert pre[..0] == [];
    }
  }

  /** When a capture with a barcode sub-result succeeds, the answer is that sub-result's conversion. */
  lemma ProcessImageAnswer(w: Worker, licenseRet: int, errorMsg: string, routerCreated: bool, c: CapturedResult)
    requires w.Valid() && (w.initialized || routerCreated)
    requires c.errorCode == EcOk && c.barcodes.Some?
    ensures var s := ProcessImage(w, false, licenseRet, errorMsg, routerCreated, Some(c));
      s.signals[|s.signals| - 1] == ResultsReady(Conversion(c.barcodes))
  {
  }

  /** `OnDecodedBarcodesReceived`: no signal for a null or failed result, else the conversion. */
  method OnDecodedBarcodesReceived(r: Option<DecodedBarcodes>) returns (emitted: Option<Signal>)
    ensures emitted.Some? <==> r.Some? && r.value.errorCode == EcOk
    ensures emitted.Some? ==> emitted.value == ResultsReady(Converted(r.value.items))
  {
    if r.None? || r.value.errorCode != EcOk {
      return None;
    }
    var results := ConvertResults(r);
    emitted := Some(ResultsReady(results));
  }

  /**
   * `setLicense`: stores the key; an initialised worker re-initialises the
   * license and reports its outcome, an uninitialised one reports a pending
   * update as not valid.
   */
  function SetLicense(w: Worker, license: string, licenseRet: int, errorMsg: string): (s: Step)
    requires w.Valid()
    ensures s.worker == w.(licenseKey := license) && s.released == 0
    ensures |s.signals| == 1 && s.signals[0].LicenseStatusChanged?
    ensures s.signals[0].isValid <==> w.initialized && licenseRet == EcOk
    ensures !w.initialized ==> s.signals[0].status == "License: Updated (Pending Initialization)"
  {
    var signal := if w.initialized then LicenseSignal(licenseRet, errorMsg)
                  else LicenseStatusChanged("License: Updated (Pending Initialization)", false);
    Step(w.(licenseKey := license), [signal], 0)
  }

  /**
   * `setTemplate`: always stores the content; it is applied to the router
   * only when the worker is initialised, has a router and the content is
   * non-empty.
   */
  function SetTemplate(w: Worker, content: string): (r: (Worker, bool))
    requires w.Valid()
    ensures r.0 == w.(templateContent := content)
    ensures r.1 <==> w.initialized && w.hasRouter && content != []
  {
    (w.(templateContent := content), w.initialized && w.hasRouter && |content| > 0)
  }
}
