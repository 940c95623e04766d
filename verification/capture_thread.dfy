/** The capture worker of the webcam tracker (ACaptureThread).

    The thread keeps a mutex-guarded settings block and, in `run()`, opens a
    video device, loads a cascade classifier and then loops over frames,
    emitting queued `failed`, `captured` and `detected` notifications.

    The OpenCV and Qt calls are an input `Script`: the outcome of opening the
    device, of creating the temporary classifier file and of loading it, then
    one `Step` per frame the loop reads.  Running out of steps stands for the
    interruption request.  A `Step` also carries the settings values `run()`
    reads under the lock during that iteration, because another thread may
    change them between iterations.  The notifications are an appended event
    log; the OpenCV calls whose arguments the model knows are a second log.
 */
module Capture {

  /** A detected region, as cv::Rect reports it. */
  datatype Rect = Rect(x: int, y: int, width: int, height: int)

  /** A width and a height in pixels: a cv::Size, or the dimensions of a cv::Mat. */
  datatype Size = Size(width: int, height: int)

  /** The smallest and the largest window handed to the detector. */
  datatype Window = Window(minSize: Size, maxSize: Size)

  /** A QImage payload: the null image, or an image with pixel data.  Only the
      dimensions of the pixel data are modelled. */
  datatype Image = NullImage | Pixels(width: int, height: int)

  /** The queued notifications, named after the thread's signals. */
  datatype Event =
    | Failed                       // failed()
    | Captured                     // captured(), the payload-free tick when capture is hidden
    | CapturedImage(image: Image)  // captured(QImage)
    | DetectedRect(rect: Rect)     // detected(QRect), when detection is hidden
    | DetectedImage(image: Image)  // detected(QImage), the cropped region
  {
    predicate IsCaptured() { Captured? || CapturedImage? }
    predicate IsDetected() { DetectedRect? || DetectedImage? }
  }

  /** The library calls whose arguments the model knows, in the order they are made. */
  datatype Call =
    | OpenDevice(index: int)             // opening the capture device (line 110)
    | CopyClassifier(path: string)       // copying the classifier to a temporary file (line 125)
    | LoadClassifier                     // loading the classifier from that copy (line 138)
    | Allocate(size: Size)               // reallocation of the accumulator (line 171)
    | Detect(image: Size, window: Window) // the detector run with its window bounds (lines 187-188)

  /** A frame as `capture >> src_mat` delivers it, with the regions the
      detector will report for it. */
  datatype Frame = Frame(cols: nat, rows: nat, rois: seq<Rect>) {
    /** cv::Mat::empty(): the frame holds no pixel. */
    predicate Empty() { cols == 0 || rows == 0 }
  }

  /** One iteration of the loop: the frame read, and the settings values read
      under the lock in that iteration (minimum and maximum percentages, then
      the capture-hidden flag, then the detect-hidden flag). */
  datatype Step = Step(frame: Frame, detMin: int, detMax: int, hiddenCapture: bool, hiddenDetect: bool)

  /** Everything `run()` learns from outside the object: the three startup
      outcomes, the iterations before the interruption request, and the
      capture-hidden flag read after the loop. */
  datatype Script = Script(
    deviceOpened: bool,
    tempFileCreated: bool,
    classifierLoaded: bool,
    steps: seq<Step>,
    hiddenCaptureAtEnd: bool)

  /** The two logs `run()` produces. */
  datatype Outcome = Outcome(events: seq<Event>, calls: seq<Call>) {
    function Then(next: Outcome): Outcome {
      Outcome(events + next.events, calls + next.calls)
    }
  }

  /** The settings block, as one value. */
  datatype Settings = Settings(
    device: int,
    classifier: string,
    minPercent: int,
    maxPercent: int,
    hiddenCapture: bool,
    hiddenDetect: bool)

  /** `p / 100` on C++ ints: the quotient is truncated toward zero, not
      rounded down as Dafny's `/` does for a negative `p`. */
  function Percent(p: int): (q: int)
    ensures 0 <= p ==> 0 <= 100 * q <= p < 100 * q + 100
    ensures p < 0 ==> 100 * q - 100 < p <= 100 * q <= 0
  {
    if p >= 0 then p / 100 else -((-p) / 100)
  }

  /** `dim * percent / 100` on C++ ints. */
  function Scale(dim: int, percent: int): int {
    Percent(dim * percent)
  }

  /** The detector's window bounds for a frame of `cols` by `rows` pixels. */
  function WindowBounds(cols: int, rows: int, detMin: int, detMax: int): Window {
    Window(Size(Scale(cols, detMin), Scale(rows, detMin)),
           Size(Scale(cols, detMax), Scale(rows, detMax)))
  }

  /** The `captured` notification of one iteration over a non-empty frame. */
  function CapturedEvent(st: Step): Event {
    if st.hiddenCapture then Captured else CapturedImage(Pixels(st.frame.cols, st.frame.rows))
  }

  /** The `detected` notification of that iteration, if the detector found a region. */
  function DetectedEvents(st: Step): seq<Event> {
    var rois := st.frame.rois;
    if |rois| == 0 then []
    else if st.hiddenDetect then [DetectedRect(rois[0])]
    else [DetectedImage(Pixels(rois[0].width, rois[0].height))]
  }

  /** The notifications of one iteration over a non-empty frame. */
  function FrameEvents(st: Step): seq<Event> {
    [CapturedEvent(st)] + DetectedEvents(st)
  }

  /** The library calls of one iteration over a non-empty frame, when the
      accumulator has dimensions `acc` before it. */
  function FrameCalls(acc: Size, st: Step): seq<Call> {
    var f := st.frame;
    var size := Size(f.cols, f.rows);
    (if acc.height != f.rows || acc.width != f.cols then [Allocate(size)] else [])
      + [Detect(size, WindowBounds(f.cols, f.rows, st.detMin, st.detMax))]
  }

  /** The loop from `steps` on, with the accumulator at dimensions `acc`. */
  function Loop(steps: seq<Step>, acc: Size): (r: Outcome)
    ensures steps != [] ==> r.events != []
    ensures |r.events| <= 2 * |steps| && |r.calls| <= 2 * |steps|
    decreases |steps|
  {
    if steps == [] then Outcome([], [])
    else if steps[0].frame.Empty() then Outcome([Failed], [])
    else
      var f := steps[0].frame;
      Outcome(FrameEvents(steps[0]), FrameCalls(acc, steps[0])).Then(Loop(steps[1..], Size(f.cols, f.rows)))
  }

  /** `Loop` at an empty frame: `failed`, and the loop is left. */
  lemma LoopFailsAt(steps: seq<Step>, i: nat, acc: Size)
    requires i < |steps| && steps[i].frame.Empty()
    ensures Loop(steps[i..], acc) == Outcome([Failed], [])
  {
  }

  /** `Loop` at a non-empty frame, after what the earlier iterations did:
      that frame's iteration is appended, then the rest of the loop. */
  lemma LoopFrameAt(done: Outcome, steps: seq<Step>, i: nat, acc: Size)
    requires i < |steps| && !steps[i].frame.Empty()
    ensures done.Then(Loop(steps[i..], acc))
      == done.Then(Outcome(FrameEvents(steps[i]), FrameCalls(acc, steps[i])))
             .Then(Loop(steps[i + 1..], Size(steps[i].frame.cols, steps[i].frame.rows)))
  {
    assert steps[i..][1..] == steps[i + 1..];
    var rest := Loop(steps[i + 1..], Size(steps[i].frame.cols, steps[i].frame.rows));
    assert (done.events + FrameEvents(steps[i])) + rest.events == done.events + (FrameEvents(steps[i]) + rest.events);
    assert (done.calls + FrameCalls(acc, steps[i])) + rest.calls == done.calls + (FrameCalls(acc, steps[i]) + rest.calls);
  }

  /** The end-of-stream notification after the loop. */
  function EndOfStream(hiddenCapture: bool): seq<Event> {
    if hiddenCapture then [] else [CapturedImage(NullImage)]
  }

  /** What `run()` does, for the device index and classifier path it reads at startup. */
  function Trace(device: int, classifier: string, script: Script): (r: Outcome)
    ensures r.calls != [] && r.calls[0] == OpenDevice(device)
    ensures r.events == [] <==>
      script.deviceOpened && script.tempFileCreated && script.classifierLoaded
      && script.steps == [] && script.hiddenCaptureAtEnd
  {
    var open := [OpenDevice(device)];
    var prepare := open + [CopyClassifier(classifier), LoadClassifier];
    if !script.deviceOpened then Outcome([Failed], open)
    else if !script.tempFileCreated then Outcome([Failed], open + [CopyClassifier(classifier)])
    else if !script.classifierLoaded then Outcome([Failed], prepare)
    else Outcome([], prepare).Then(Loop(script.steps, Size(0, 0))).Then(Outcome(EndOfStream(script.hiddenCaptureAtEnd), []))
  }

  /** `Trace` case by case. */
  lemma TraceCases(device: int, classifier: string, script: Script)
    ensures !script.deviceOpened ==> Trace(device, classifier, script) == Outcome([Failed], [OpenDevice(device)])
    ensures script.deviceOpened && !script.tempFileCreated ==>
      Trace(device, classifier, script) == Outcome([Failed], [OpenDevice(device), CopyClassifier(classifier)])
    ensures script.deviceOpened && script.tempFileCreated && !script.classifierLoaded ==>
      Trace(device, classifier, script) == Outcome([Failed], [OpenDevice(device), CopyClassifier(classifier), LoadClassifier])
    ensures script.deviceOpened && script.tempFileCreated && script.classifierLoaded ==>
      var loop := Loop(script.steps, Size(0, 0));
      Trace(device, classifier, script)
        == Outcome(loop.events + EndOfStream(script.hiddenCaptureAtEnd),
                   [OpenDevice(device), CopyClassifier(classifier), LoadClassifier] + loop.calls)
  {
  }

  class CaptureThread {
    var devIdx: int
    var detFname: string
    var detMin: int
    var detMax: int
    var hiddenCapture: bool
    var hiddenDetect: bool

    /** The settings block as one value. */
    function Snapshot(): Settings
      reads this
    {
      Settings(devIdx, detFname, detMin, detMax, hiddenCapture, hiddenDetect)
    }

    constructor ()
      ensures Snapshot() == Settings(0, "", 20, 50, true, true)
    {
      devIdx, detFname := 0, "";
      detMin, detMax := 20, 50;
      hiddenCapture, hiddenDetect := true, true;
    }

    method DetectorClassifier() returns (fname: string)
      ensures fname == Snapshot().classifier
    {
      fname := detFname;
    }

    method DetectorMinSize() returns (min: int)
      ensures min == Snapshot().minPercent
    {
      min := detMin;
    }

    method DetectorMaxSize() returns (max: int)
      ensures max == Snapshot().maxPercent
    {
      max := detMax;
    }

    method IsHiddenCapture() returns (hidden: bool)
      ensures hidden == Snapshot().hiddenCapture
    {
      hidden := hiddenCapture;
    }

    method IsHiddenDetect() returns (hidden: bool)
      ensures hidden == Snapshot().hiddenDetect
    {
      hidden := hiddenDetect;
    }

    method SetDetectorClassifier(fname: string)
      modifies this
      ensures Snapshot() == old(Snapshot()).(classifier := fname)
    {
      detFname := fname;
    }

    method SetDetectorMinSize(min: int)
      modifies this
      ensures Snapshot() == old(Snapshot()).(minPercent := min)
    {
      detMin := min;
    }

    method SetDetectorMaxSize(max: int)
      modifies this
      ensures Snapshot() == old(Snapshot()).(maxPercent := max)
    {
      detMax := max;
    }

    method SetCaptureHidden(hidden: bool)
      modifies this
      ensures Snapshot() == old(Snapshot()).(hiddenCapture := hidden)
    {
      hiddenCapture := hidden;
    }

    method SetDetectHidden(hidden: bool)
      modifies this
      ensures Snapshot() == old(Snapshot()).(hiddenDetect := hidden)
    {
      hiddenDetect := hidden;
    }

    /** The thread body: fail-fast startup, then one iteration per frame until
        the script runs out (the interruption request) or a frame is empty. */
    method Run(script: Script) returns (events: seq<Event>, calls: seq<Call>)
      ensures Outcome(events, calls) == Trace(devIdx, detFname, script)
    {
      TraceCases(devIdx, detFname, script);
      var device := devIdx;
      events, calls := [], [OpenDevice(device)];
      if !script.deviceOpened {
        events := events + [Failed];
        return;
      }

      var source := detFname;
      calls := calls + [CopyClassifier(source)];
      if !script.tempFileCreated {
        events := events + [Failed];
        return;
      }

      calls := calls + [LoadClassifier];
      if !script.classifierLoaded {
        events := events + [Failed];
        return;
      }

      var loopEvents, loopCalls := RunLoop(script.steps);
      events, calls := events + loopEvents, calls + loopCalls;

      if !script.hiddenCaptureAtEnd {
        events := events + [CapturedImage(NullImage)];
      }
    }

    /** One pass of the frame loop over a non-empty frame: the accumulator is
        reallocated when the frame size changed, the detector runs with the
        window bounds, and the frame and the first region are reported. */
    static method ProcessFrame(acc: Size, step: Step) returns (events: seq<Event>, calls: seq<Call>, acc': Size)
      requires !step.frame.Empty()
      ensures events == FrameEvents(step) && calls == FrameCalls(acc, step)
      ensures acc' == Size(step.frame.cols, step.frame.rows)
    {
      var frame := step.frame;
      events, calls, acc' := [], [], acc;
      if acc.height != frame.rows || acc.width != frame.cols {
        acc' := Size(frame.cols, frame.rows);
        calls := calls + [Allocate(acc')];
      }

      var window := WindowBounds(frame.cols, frame.rows, step.detMin, step.detMax);
      calls := calls + [Detect(Size(frame.cols, frame.rows), window)];
      var rois := frame.rois;

      if step.hiddenCapture {
        events := events + [Captured];
      } else {
        events := events + [CapturedImage(Pixels(frame.cols, frame.rows))];
      }
      if |rois| > 0 {
        if step.hiddenDetect {
          events := events + [DetectedRect(rois[0])];
        } else {
          events := events + [DetectedImage(Pixels(rois[0].width, rois[0].height))];
        }
      }
    }

    /** The frame loop of `run()`, from a fresh (empty) accumulator. */
    static method RunLoop(steps: seq<Step>) returns (events: seq<Event>, calls: seq<Call>)
      ensures Outcome(events, calls) == Loop(steps, Size(0, 0))
    {
      ghost var target := Loop(steps, Size(0, 0));
      events, calls := [], [];
      var acc := Size(0, 0);
      var i := 0;
      while i < |steps|
        invariant 0 <= i <= |steps|
        invariant Outcome(events, calls).Then(Loop(steps[i..], acc)) == target
      {
        if steps[i].frame.Empty() {
          LoopFailsAt(steps, i, acc);
          events := events + [Failed];
          break;
        }

        ghost var done := Outcome(events, calls);
        LoopFrameAt(done, steps, i, acc);
        var frameEvents, frameCalls;
        frameEvents, frameCalls, acc := ProcessFrame(acc, steps[i]);
        events, calls := events + frameEvents, calls + frameCalls;
        i := i + 1;
      }
      assert events == target.events && calls == target.calls;
    }
  }
}
