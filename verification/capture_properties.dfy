/** What `run()` of the capture worker guarantees about the notifications it
    queues and the library calls it makes, stated over `Capture.Trace` and
    `Capture.Loop` (which `CaptureThread.Run` is proved to follow). */
module CaptureProperties {
  import opened Capture

  datatype Kind = FailedKind | CapturedKind | DetectedKind

  function KindOf(e: Event): Kind {
    match e
    case Failed => FailedKind
    case Captured | CapturedImage(_) => CapturedKind
    case DetectedRect(_) | DetectedImage(_) => DetectedKind
  }

  /** The number of notifications of kind `k` in `es`. */
  function Count(es: seq<Event>, k: Kind): nat {
    if es == [] then 0 else (if KindOf(es[0]) == k then 1 else 0) + Count(es[1..], k)
  }

  lemma {:induction false} CountConcat(a: seq<Event>, b: seq<Event>, k: Kind)
    ensures Count(a + b, k) == Count(a, k) + Count(b, k)
  {
    if a == [] {
      assert a + b == b;
    } else {
      assert (a + b)[1..] == a[1..] + b;
      CountConcat(a[1..], b, k);
    }
  }

  /** The number of iterations that got a frame: the non-empty frames before
      the first empty one. */
  function Processed(steps: seq<Step>): nat {
    if steps == [] || steps[0].frame.Empty() then 0 else 1 + Processed(steps[1..])
  }

  /** How many of those iterations the detector found at least one region in. */
  function Detecting(steps: seq<Step>): nat {
    if steps == [] || steps[0].frame.Empty() then 0
    else (if |steps[0].frame.rois| > 0 then 1 else 0) + Detecting(steps[1..])
  }

  /** Startup succeeded: the device opened, the temporary file was created and
      the classifier loaded. */
  predicate Started(script: Script) {
    script.deviceOpened && script.tempFileCreated && script.classifierLoaded
  }

  // ---------------------------------------------------------------------
  // Startup

  /** A failure at any startup step queues exactly one `failed`: no
      `captured`, not even the end-of-stream one, and no `detected`. */
  lemma StartupFailure(device: int, classifier: string, script: Script)
    requires !Started(script)
    ensures Trace(device, classifier, script).events == [Failed]
    ensures Trace(device, classifier, script).calls[0] == OpenDevice(device)
  {
  }

  /** The device index and classifier path read at startup are the ones used. */
  lemma StartupCalls(device: int, classifier: string, script: Script)
    requires Started(script)
    ensures Trace(device, classifier, script).calls[..3] == [OpenDevice(device), CopyClassifier(classifier), LoadClassifier]
  {
    TraceCases(device, classifier, script);
  }

  // ---------------------------------------------------------------------
  // One iteration

  /** An iteration over a non-empty frame queues one `captured`, then a
      `detected` exactly when the detector reported a region, built from the
      first region only; the payloads follow the flags read in that iteration. */
  lemma FrameNotifications(st: Step)
    ensures var es := FrameEvents(st);
      && |es| == (if |st.frame.rois| > 0 then 2 else 1)
      && es[0] == (if st.hiddenCapture then Captured else CapturedImage(Pixels(st.frame.cols, st.frame.rows)))
      && (|st.frame.rois| > 0 ==>
            var roi := st.frame.rois[0];
            es[1] == (if st.hiddenDetect then DetectedRect(roi) else DetectedImage(Pixels(roi.width, roi.height))))
  {
  }

  /** The accumulator is reallocated in an iteration exactly when its
      dimensions differ from the frame's, and the detector then runs on an
      image of the frame's dimensions. */
  lemma FrameReallocation(acc: Size, st: Step)
    ensures var cs := FrameCalls(acc, st);
      && cs[0].Allocate? == (acc.height != st.frame.rows || acc.width != st.frame.cols)
      && (cs[0].Allocate? ==> cs[0].size == Size(st.frame.cols, st.frame.rows))
      && cs[|cs| - 1].Detect?
      && cs[|cs| - 1].image == Size(st.frame.cols, st.frame.rows)
      && |cs| == (if cs[0].Allocate? then 2 else 1)
  {
  }

  // ---------------------------------------------------------------------
  // Window bounds

  /** The bounds fit the image: `0 <= min <= max <= dimension`. */
  predicate WithinImage(image: Size, w: Window) {
    && 0 <= w.minSize.width <= w.maxSize.width <= image.width
    && 0 <= w.minSize.height <= w.maxSize.height <= image.height
  }

  lemma MulMonotone(dim: int, lo: int, hi: int)
    requires 0 <= dim && lo <= hi
    ensures dim * lo <= dim * hi
  {
    assert dim * hi - dim * lo == dim * (hi - lo);
  }

  lemma ScaleMonotone(dim: int, lo: int, hi: int)
    requires 0 <= dim && 0 <= lo <= hi <= 100
    ensures 0 <= Scale(dim, lo) <= Scale(dim, hi) <= dim
  {
    MulMonotone(dim, 0, lo);
    MulMonotone(dim, lo, hi);
    MulMonotone(dim, hi, 100);
  }

  /** For percentages with `0 <= min <= max <= 100` (the setters do not check
      this), the window bounds lie within the frame. */
  lemma WindowWithinFrame(cols: nat, rows: nat, detMin: int, detMax: int)
    requires 0 <= detMin <= detMax <= 100
    ensures WithinImage(Size(cols, rows), WindowBounds(cols, rows, detMin, detMax))
  {
    ScaleMonotone(cols, detMin, detMax);
    ScaleMonotone(rows, detMin, detMax);
  }

  /** The default percentages on a 640 by 480 frame. */
  lemma DefaultWindow()
    ensures WindowBounds(640, 480, 20, 50) == Window(Size(128, 96), Size(320, 240))
  {
  }

  /** A negative percentage is truncated toward zero as in C++, not rounded
      down: 640 * -1 / 100 is -6, where Dafny's own division gives -7. */
  lemma NegativePercentTruncates()
    ensures Scale(640, -1) == -6 && (640 * -1) / 100 == -7
  {
  }

  // ---------------------------------------------------------------------
  // The loop

  lemma CountSingle(e: Event, k: Kind)
    ensures Count([e], k) == (if KindOf(e) == k then 1 else 0)
  {
    assert [e][1..] == [];
  }

  /** The counts of one iteration's notifications. */
  lemma FrameCounts(st: Step)
    ensures Count(FrameEvents(st), CapturedKind) == 1
    ensures Count(FrameEvents(st), DetectedKind) == (if |st.frame.rois| > 0 then 1 else 0)
    ensures Count(FrameEvents(st), FailedKind) == 0
  {
    var c := CapturedEvent(st);
    var d := DetectedEvents(st);
    forall k: Kind
      ensures Count(FrameEvents(st), k) == (if KindOf(c) == k then 1 else 0) + Count(d, k)
    {
      CountConcat([c], d, k);
      CountSingle(c, k);
    }
    if |st.frame.rois| > 0 {
      forall k: Kind ensures Count(d, k) == (if k == DetectedKind then 1 else 0) {
        CountSingle(d[0], k);
        assert d == [d[0]];
      }
    }
  }

  /** The loop queues one `captured` per processed frame, one `detected` per
      processed frame with a region, and one `failed` exactly when it stopped
      at an empty frame. */
  lemma {:induction false} LoopCounts(steps: seq<Step>, acc: Size)
    ensures Count(Loop(steps, acc).events, CapturedKind) == Processed(steps)
    ensures Count(Loop(steps, acc).events, DetectedKind) == Detecting(steps)
    ensures Count(Loop(steps, acc).events, FailedKind) == (if Processed(steps) < |steps| then 1 else 0)
    decreases |steps|
  {
    if steps == [] {
    } else if steps[0].frame.Empty() {
      assert Loop(steps, acc).events == [Failed];
      assert [Failed][1..] == [];
    } else {
      var st := steps[0];
      var rest := Loop(steps[1..], Size(st.frame.cols, st.frame.rows));
      assert Loop(steps, acc).events == FrameEvents(st) + rest.events;
      LoopCounts(steps[1..], Size(st.frame.cols, st.frame.rows));
      FrameCounts(st);
      CountConcat(FrameEvents(st), rest.events, CapturedKind);
      CountConcat(FrameEvents(st), rest.events, DetectedKind);
      CountConcat(FrameEvents(st), rest.events, FailedKind);
    }
  }

  /** Every `detected` directly follows a `captured`. */
  predicate DetectedFollowsCaptured(es: seq<Event>) {
    forall j :: 0 <= j < |es| && es[j].IsDetected() ==> 0 < j && es[j - 1].IsCaptured()
  }

  lemma ConcatFollows(a: seq<Event>, b: seq<Event>)
    requires DetectedFollowsCaptured(a) && DetectedFollowsCaptured(b)
    requires |b| > 0 ==> !b[0].IsDetected()
    ensures DetectedFollowsCaptured(a + b)
  {
    forall j | 0 <= j < |a + b| && (a + b)[j].IsDetected()
      ensures 0 < j && (a + b)[j - 1].IsCaptured()
    {
      if j >= |a| {
        assert (a + b)[j] == b[j - |a|];
        assert (a + b)[j - 1] == b[j - 1 - |a|];
      }
    }
  }

  lemma {:induction false} LoopOrdering(steps: seq<Step>, acc: Size)
    ensures DetectedFollowsCaptured(Loop(steps, acc).events)
    ensures |Loop(steps, acc).events| > 0 ==> !Loop(steps, acc).events[0].IsDetected()
    decreases |steps|
  {
    if steps != [] && !steps[0].frame.Empty() {
      var st := steps[0];
      LoopOrdering(steps[1..], Size(st.frame.cols, st.frame.rows));
      FrameNotifications(st);
      ConcatFollows(FrameEvents(st), Loop(steps[1..], Size(st.frame.cols, st.frame.rows)).events);
    }
  }

  /** A `failed`, if any, is the last notification of `es`. */
  predicate FailedIsLast(es: seq<Event>) {
    forall k :: 0 <= k < |es| && es[k] == Failed ==> k == |es| - 1
  }

  lemma ConcatFailedIsLast(a: seq<Event>, b: seq<Event>)
    requires forall i :: 0 <= i < |a| ==> a[i] != Failed
    requires FailedIsLast(b)
    ensures FailedIsLast(a + b)
  {
    forall k | 0 <= k < |a + b| && (a + b)[k] == Failed
      ensures k == |a + b| - 1
    {
      if k >= |a| {
        assert (a + b)[k] == b[k - |a|];
      }
    }
  }

  /** A `failed` ends the loop: nothing comes after it in the loop's own notifications. */
  lemma {:induction false} LoopFailedIsLast(steps: seq<Step>, acc: Size)
    ensures FailedIsLast(Loop(steps, acc).events)
    decreases |steps|
  {
    if steps != [] && !steps[0].frame.Empty() {
      var st := steps[0];
      var rest := Loop(steps[1..], Size(st.frame.cols, st.frame.rows));
      LoopFailedIsLast(steps[1..], Size(st.frame.cols, st.frame.rows));
      FrameNotifications(st);
      ConcatFailedIsLast(FrameEvents(st), rest.events);
    }
  }

  /** In-loop `captured` notifications never carry the null image. */
  lemma {:induction false} LoopHasNoEndMarker(steps: seq<Step>, acc: Size)
    ensures CapturedImage(NullImage) !in Loop(steps, acc).events
    decreases |steps|
  {
    if steps != [] && !steps[0].frame.Empty() {
      var st := steps[0];
      LoopHasNoEndMarker(steps[1..], Size(st.frame.cols, st.frame.rows));
      FrameNotifications(st);
    }
  }

  /** Whole-run counts after a successful startup: one `captured` per
      processed frame plus the end-of-stream one when capture is not hidden
      at the end (also after the empty-frame `break`), one `detected` per frame
      with a region, and one `failed` exactly when an empty frame was read. */
  lemma RunCounts(device: int, classifier: string, script: Script)
    requires Started(script)
    ensures var es := Trace(device, classifier, script).events;
      && Count(es, CapturedKind) == Processed(script.steps) + (if script.hiddenCaptureAtEnd then 0 else 1)
      && Count(es, DetectedKind) == Detecting(script.steps)
      && Count(es, FailedKind) == (if Processed(script.steps) < |script.steps| then 1 else 0)
  {
    TraceCases(device, classifier, script);
    var loop := Loop(script.steps, Size(0, 0));
    LoopCounts(script.steps, Size(0, 0));
    var eos := EndOfStream(script.hiddenCaptureAtEnd);
    CountConcat(loop.events, eos, CapturedKind);
    CountConcat(loop.events, eos, DetectedKind);
    CountConcat(loop.events, eos, FailedKind);
    if !script.hiddenCaptureAtEnd {
      assert eos[1..] == [];
    }
  }

  /** The end-of-stream `captured(QImage())` is the last notification exactly
      when capture is not hidden at the end; it is queued after a `failed`
      from an empty frame as well. */
  lemma RunEndOfStream(device: int, classifier: string, script: Script)
    requires Started(script)
    ensures var es := Trace(device, classifier, script).events;
      (|es| > 0 && es[|es| - 1] == CapturedImage(NullImage)) <==> !script.hiddenCaptureAtEnd
  {
    TraceCases(device, classifier, script);
    var loop := Loop(script.steps, Size(0, 0));
    LoopHasNoEndMarker(script.steps, Size(0, 0));
    if script.hiddenCaptureAtEnd {
      assert loop.events + EndOfStream(true) == loop.events;
      if |loop.events| > 0 {
        assert loop.events[|loop.events| - 1] in loop.events;
      }
    }
  }

  /** Notification order over the whole run: each `detected` directly follows
      a `captured`, and after a `failed` only the end-of-stream notification
      can come. */
  lemma RunOrdering(device: int, classifier: string, script: Script)
    ensures var es := Trace(device, classifier, script).events;
      && DetectedFollowsCaptured(es)
      && forall k :: 0 <= k < |es| && es[k] == Failed ==> es[k + 1..] == [] || es[k + 1..] == [CapturedImage(NullImage)]
  {
    TraceCases(device, classifier, script);
    if Started(script) {
      var loop := Loop(script.steps, Size(0, 0));
      var eos := EndOfStream(script.hiddenCaptureAtEnd);
      var es := loop.events + eos;
      LoopOrdering(script.steps, Size(0, 0));
      LoopFailedIsLast(script.steps, Size(0, 0));
      ConcatFollows(loop.events, eos);
      forall k | 0 <= k < |es| && es[k] == Failed
        ensures es[k + 1..] == [] || es[k + 1..] == [CapturedImage(NullImage)]
      {
        if k < |loop.events| {
          assert loop.events[k] == Failed;
          assert es[k + 1..] == eos;
        }
      }
    }
  }

  // ---------------------------------------------------------------------
  // Payloads when no setter runs during `run()`

  /** Every settings value `run()` reads equals the one in `s`. */
  predicate Settled(script: Script, s: Settings) {
    && (forall i :: 0 <= i < |script.steps| ==>
          && script.steps[i].detMin == s.minPercent
          && script.steps[i].detMax == s.maxPercent
          && script.steps[i].hiddenCapture == s.hiddenCapture
          && script.steps[i].hiddenDetect == s.hiddenDetect)
    && script.hiddenCaptureAtEnd == s.hiddenCapture
  }

  /** The payload kinds the hidden flags select. */
  predicate PayloadsFollow(es: seq<Event>, hiddenCapture: bool, hiddenDetect: bool) {
    forall e :: e in es ==>
      && (e.Captured? ==> hiddenCapture)
      && (e.CapturedImage? ==> !hiddenCapture)
      && (e.DetectedRect? ==> hiddenDetect)
      && (e.DetectedImage? ==> !hiddenDetect)
  }

  lemma {:induction false} LoopPayloads(steps: seq<Step>, acc: Size, hiddenCapture: bool, hiddenDetect: bool)
    requires forall i :: 0 <= i < |steps| ==> steps[i].hiddenCapture == hiddenCapture && steps[i].hiddenDetect == hiddenDetect
    ensures PayloadsFollow(Loop(steps, acc).events, hiddenCapture, hiddenDetect)
    decreases |steps|
  {
    if steps != [] && !steps[0].frame.Empty() {
      var st := steps[0];
      assert st.hiddenCapture == hiddenCapture && st.hiddenDetect == hiddenDetect;
      LoopPayloads(steps[1..], Size(st.frame.cols, st.frame.rows), hiddenCapture, hiddenDetect);
      FrameNotifications(st);
    }
  }

  /** When the settings stay `s` throughout, every `captured` carries an image
      exactly when capture is not hidden, and every `detected` carries a
      rectangle exactly when detection is hidden (a cropped image otherwise). */
  lemma SettledPayloads(s: Settings, script: Script)
    requires Settled(script, s)
    ensures PayloadsFollow(Trace(s.device, s.classifier, script).events, s.hiddenCapture, s.hiddenDetect)
  {
    TraceCases(s.device, s.classifier, script);
    if Started(script) {
      LoopPayloads(script.steps, Size(0, 0), s.hiddenCapture, s.hiddenDetect);
    }
  }

  // ---------------------------------------------------------------------
  // Library calls

  /** Every detector call gets bounds within its image when the percentages
      read satisfy `0 <= min <= max <= 100`. */
  lemma {:induction false} LoopWindows(steps: seq<Step>, acc: Size)
    requires forall i :: 0 <= i < |steps| ==> 0 <= steps[i].detMin <= steps[i].detMax <= 100
    ensures forall c :: c in Loop(steps, acc).calls && c.Detect? ==> WithinImage(c.image, c.window)
    decreases |steps|
  {
    if steps != [] && !steps[0].frame.Empty() {
      var st := steps[0];
      LoopWindows(steps[1..], Size(st.frame.cols, st.frame.rows));
      WindowWithinFrame(st.frame.cols, st.frame.rows, st.detMin, st.detMax);
    }
  }

  /** The accumulator's dimensions after the calls `cs`, starting from `acc`. */
  function AccAfter(cs: seq<Call>, acc: Size): Size {
    if cs == [] then acc else AccAfter(cs[1..], if cs[0].Allocate? then cs[0].size else acc)
  }

  lemma {:induction false} AccAfterConcat(a: seq<Call>, b: seq<Call>, acc: Size)
    ensures AccAfter(a + b, acc) == AccAfter(b, AccAfter(a, acc))
  {
    if a == [] {
      assert a + b == b;
    } else {
      assert (a + b)[1..] == a[1..] + b;
      AccAfterConcat(a[1..], b, if a[0].Allocate? then a[0].size else acc);
    }
  }

  /** After one iteration the accumulator has the frame's dimensions. */
  lemma AccAfterFrame(acc: Size, st: Step)
    ensures AccAfter(FrameCalls(acc, st), acc) == Size(st.frame.cols, st.frame.rows)
  {
    var size := Size(st.frame.cols, st.frame.rows);
    var fc := FrameCalls(acc, st);
    var detect := fc[|fc| - 1];
    if acc.height != st.frame.rows || acc.width != st.frame.cols {
      assert fc == [Allocate(size)] + [detect];
      assert AccAfter([detect], size) == size by {
        assert [detect][1..] == [];
      }
    } else {
      assert fc == [detect];
      assert [detect][1..] == [];
      assert acc == size;
    }
  }

  lemma FrameAccAtDetect(acc: Size, st: Step, j: nat)
    requires j < |FrameCalls(acc, st)| && FrameCalls(acc, st)[j].Detect?
    ensures AccAfter(FrameCalls(acc, st)[..j], acc) == FrameCalls(acc, st)[j].image
  {
    var size := Size(st.frame.cols, st.frame.rows);
    var fc := FrameCalls(acc, st);
    FrameReallocation(acc, st);
    if fc[0].Allocate? {
      assert j == 1;
      assert fc[..j] == [Allocate(size)];
      assert [Allocate(size)][1..] == [];
    } else {
      assert j == 0;
      assert acc == size;
    }
  }

  /** Whenever the detector runs, the accumulator has the dimensions of the
      image it runs on. */
  predicate AccMatchesDetect(cs: seq<Call>, acc: Size) {
    forall j :: 0 <= j < |cs| && cs[j].Detect? ==> AccAfter(cs[..j], acc) == cs[j].image
  }

  lemma {:induction false} LoopAccumulator(steps: seq<Step>, acc: Size)
    ensures AccMatchesDetect(Loop(steps, acc).calls, acc)
    decreases |steps|
  {
    if steps != [] && !steps[0].frame.Empty() {
      var st := steps[0];
      var size := Size(st.frame.cols, st.frame.rows);
      var fc := FrameCalls(acc, st);
      var rest := Loop(steps[1..], size).calls;
      var cs := Loop(steps, acc).calls;
      assert cs == fc + rest;
      LoopAccumulator(steps[1..], size);
      FrameReallocation(acc, st);
      AccAfterFrame(acc, st);
      forall j | 0 <= j < |cs| && cs[j].Detect?
        ensures AccAfter(cs[..j], acc) == cs[j].image
      {
        if j < |fc| {
          assert cs[..j] == fc[..j] && cs[j] == fc[j];
          FrameAccAtDetect(acc, st, j);
        } else {
          assert cs[..j] == fc + rest[..j - |fc|];
          AccAfterConcat(fc, rest[..j - |fc|], acc);
          var j' := j - |fc|;
          assert 0 <= j' < |rest| && cs[j] == rest[j'] && rest[j'].Detect?;
          assert AccAfter(rest[..j'], size) == rest[j'].image;
        }
      }
    }
  }

  /** The number of accumulator allocations among `cs`. */
  function Allocations(cs: seq<Call>): nat {
    if cs == [] then 0 else (if cs[0].Allocate? then 1 else 0) + Allocations(cs[1..])
  }

  lemma {:induction false} AllocationsConcat(a: seq<Call>, b: seq<Call>)
    ensures Allocations(a + b) == Allocations(a) + Allocations(b)
  {
    if a == [] {
      assert a + b == b;
    } else {
      assert (a + b)[1..] == a[1..] + b;
      AllocationsConcat(a[1..], b);
    }
  }

  /** A stream of frames of one size allocates the accumulator at most once:
      on the first frame, unless it already had that size. */
  lemma {:induction false} SteadyStreamAllocatesOnce(steps: seq<Step>, acc: Size, size: Size)
    requires forall i :: 0 <= i < |steps| ==> steps[i].frame.Empty() || Size(steps[i].frame.cols, steps[i].frame.rows) == size
    ensures Allocations(Loop(steps, acc).calls) == (if Processed(steps) > 0 && acc != size then 1 else 0)
    decreases |steps|
  {
    if steps != [] && !steps[0].frame.Empty() {
      var st := steps[0];
      assert Size(st.frame.cols, st.frame.rows) == size;
      SteadyStreamAllocatesOnce(steps[1..], size, size);
      AllocationsConcat(FrameCalls(acc, st), Loop(steps[1..], size).calls);
      FrameReallocation(acc, st);
      if acc != size {
        assert FrameCalls(acc, st)[1..][1..] == [];
      } else {
        assert FrameCalls(acc, st)[1..] == [];
      }
    }
  }

  // ---------------------------------------------------------------------
  // Whole runs

  /** The device cannot be opened: exactly one `failed`, and opening the
      device is the only call made, whatever the rest of the script holds. */
  lemma OpenFailureRun(device: int, classifier: string, script: Script)
    requires !script.deviceOpened
    ensures Trace(device, classifier, script) == Outcome([Failed], [OpenDevice(device)])
  {
  }

  /** Three 640 by 480 frames without a detection, capture shown, then the
      interruption request: three frame images and the null image. */
  lemma ThreeFramesRun(device: int, classifier: string)
    ensures var st := Step(Frame(640, 480, []), 20, 50, false, true);
      Trace(device, classifier, Script(true, true, true, [st, st, st], false)).events
        == [CapturedImage(Pixels(640, 480)), CapturedImage(Pixels(640, 480)),
            CapturedImage(Pixels(640, 480)), CapturedImage(NullImage)]
  {
    var st := Step(Frame(640, 480, []), 20, 50, false, true);
    var size := Size(640, 480);
    assert [st, st, st][1..] == [st, st];
    assert [st, st][1..] == [st];
    assert [st][1..] == [];
    assert Loop([st], size).events == [CapturedImage(Pixels(640, 480))];
  }
}
