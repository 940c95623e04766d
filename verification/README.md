# Webcam tracker core: capture worker and login request

A Dafny model of two pieces of sequential logic in a Qt/OpenCV webcam
tracker. Both are modelled as the C++ writes them.

**The capture worker `ACaptureThread`.** It keeps a settings block:
- the device index;
- the classifier file;
- the minimum and maximum detection sizes, as percentages of the frame;
- two "hidden" flags.

Its thread body `run()` has two phases:
- **Startup, fail-fast.** It opens the device, copies the classifier to a temporary file and loads it.
- **The frame loop.** For each frame it maintains an accumulator, computes the detector's window bounds and queues `failed`, `captured` and `detected` notifications.

**The login request `ALoginFtcomRequest`.** It does three things:
- stores a username and a password;
- posts them as a two-part form to the URL that two chained `arg` calls build from the template `http://%1/%2/api/login`, which is `http://<domain>/<locale>/api/login` whenever the domain holds no `%`;
- classifies the server's reply into success or failure, with an optional `message` notification.

Files:

- `capture_thread.dfy` (module `Capture`) holds the data model and the specification functions.
  - `Trace` is the whole run and `Loop` is the frame loop.
  - The class `CaptureThread` has the settings fields, their getters and setters, and `Run`/`RunLoop`/`ProcessFrame`.
  - `Run`/`RunLoop` are imperative methods proved to produce exactly `Trace` and `Loop`. `ProcessFrame` is one pass of the loop over a non-empty frame.
  - The OpenCV and Qt calls are an input `Script`:
    - the three startup outcomes;
    - one `Step` per frame read;
    - the hidden flag read after the loop.
  - Running out of steps stands for the interruption request.
  - The settings values that `run()` reads under the mutex at each iteration are in the `Step`, since another thread may change them between reads.
  - The queued notifications form an event log.
  - The library calls whose arguments are known form a call log:
    - opening the device;
    - copying and loading the classifier;
    - (re)allocating the accumulator;
    - running the detector with its window.
- `capture_properties.dfy` (module `CaptureProperties`) holds the properties of the run, proved over `Trace` and `Loop`:
  - startup failure;
  - notification counts and order;
  - payload kinds;
  - window bounds;
  - accumulator dimensions.
- `utf8.dfy` (module `Utf8`) is the UTF-8 encoding that `QString::toUtf8` applies to the form bodies, with its decoder and the round trip.
- `qstring_arg.dfy` (module `QStringArg`) is `QString::arg(const QString &)` as Qt documents it:
  - the lowest-numbered place marker, `%` and one or two digits (`%0`..`%99`, optionally `%L1`), is replaced by the argument wherever it occurs;
  - other markers are kept;
  - a string without a marker comes back unchanged.
- `login_request.dfy` (module `Login`) holds:
  - the class `LoginRequest`, with its fields, getters, setters and `Send`, which builds the form (`BuildForm`) and the URL (`BuildUrl`);
  - the URL, both as written (two chained `arg` calls) and as intended;
  - the reply classifier `OnReplyDataReady`;
  - the lemmas about all of these.
- `wrappers.dfy` holds `Option`.

Points about the code that the model keeps:
- The final `captured` notification with the null image (acapturethread.cpp:226-229) follows the loop however it ends: after an interruption request and after the empty-frame `break` alike. `RunEndOfStream` and `RunOrdering` state this.
- The accumulator is reallocated at line 171 without being zeroed. `accumulateWeighted(..., 0.75)` at line 173 gives the new frame the weight 0.75. Pixel values are not modelled (see "Left out").

## Model

| member | source | states |
|---|---|---|
| Capture.Percent | acapturethread.cpp:181-184 | `p / 100` on C++ ints: for `p >= 0` the quotient `q` has `100*q <= p < 100*q + 100`; for `p < 0` it has `100*q - 100 < p <= 100*q`, i.e. truncation toward zero |
| Capture.Trace | acapturethread.cpp:105-230 | the run as a value: the first call always opens the device, and the run queues no notification at all iff startup succeeds, no frame is read and capture is hidden at the end. Its other properties are in `Capture.TraceCases`, `Capture.CaptureThread.Run` and the `CaptureProperties` rows `StartupFailure` to `ThreeFramesRun` |
| Capture.Loop | acapturethread.cpp:153-224 | the frame loop as a value: a loop that reads a frame queues at least one notification, and each frame read adds at most two notifications and two calls. Its other properties are in `CaptureProperties.LoopCounts`, `LoopOrdering`, `LoopFailedIsLast`, `LoopHasNoEndMarker`, `LoopPayloads`, `LoopWindows` and `LoopAccumulator` |
| Capture.CapturedEvent | acapturethread.cpp:190-202 | the `captured` notification of one iteration: payload-free when capture is hidden, the frame's image otherwise. Its properties are in `CaptureProperties.FrameNotifications` and `CaptureProperties.LoopPayloads` |
| Capture.DetectedEvents | acapturethread.cpp:204-223 | the `detected` notification of one iteration, from the first region only: the rectangle when detection is hidden, the cropped image otherwise, none without a region. Its properties are in `CaptureProperties.FrameNotifications` and `CaptureProperties.FrameCounts` |
| Capture.FrameEvents | acapturethread.cpp:186-223 | the notifications of one iteration over a non-empty frame, `captured` first. Its properties are in `CaptureProperties.FrameNotifications`, `CaptureProperties.FrameCounts` and `CaptureProperties.LoopOrdering` |
| Capture.FrameCalls | acapturethread.cpp:170-188 | the calls of one iteration: the reallocation when the accumulator's size differs, then the detector with its window. Its properties are in `CaptureProperties.FrameReallocation`, `CaptureProperties.AccAfterFrame` and `CaptureProperties.LoopAccumulator` |
| Capture.EndOfStream | acapturethread.cpp:226-229 | the null-image `captured` after the loop, unless capture is hidden. Its properties are in `CaptureProperties.RunEndOfStream`, `CaptureProperties.RunCounts` and `CaptureProperties.SettledPayloads` |
| Capture.Scale | acapturethread.cpp:181-184 | `dim * percent / 100` with the quotient truncated toward zero (through `Capture.Percent`). Its properties are in `CaptureProperties.ScaleMonotone` and `CaptureProperties.NegativePercentTruncates` |
| Capture.WindowBounds | acapturethread.cpp:181-184 | the detector's minimum and maximum window sizes for a frame. Their properties are in `CaptureProperties.WindowWithinFrame`, `CaptureProperties.DefaultWindow` and `CaptureProperties.LoopWindows` |
| Capture.TraceCases | acapturethread.cpp:105-230 | the run case by case. Each startup failure gives exactly `[failed]`, with the calls made up to that point. A successful startup gives the loop's notifications followed by the end-of-stream one, and the three startup calls followed by the loop's calls |
| Capture.CaptureThread.constructor | acapturethread.cpp:17-19 | a new thread has device 0, an empty classifier path, min 20, max 50, and both hidden flags true |
| Capture.CaptureThread.DetectorClassifier | acapturethread.cpp:25-27 | returns the stored classifier path |
| Capture.CaptureThread.DetectorMinSize | acapturethread.cpp:33-35 | returns the stored minimum percentage |
| Capture.CaptureThread.DetectorMaxSize | acapturethread.cpp:41-43 | returns the stored maximum percentage |
| Capture.CaptureThread.IsHiddenCapture | acapturethread.cpp:49-51 | returns the stored capture-hidden flag |
| Capture.CaptureThread.IsHiddenDetect | acapturethread.cpp:57-59 | returns the stored detect-hidden flag |
| Capture.CaptureThread.SetDetectorClassifier | acapturethread.cpp:65-67 | the settings block afterwards is the old one with only the classifier path replaced |
| Capture.CaptureThread.SetDetectorMinSize | acapturethread.cpp:73-75 | only the minimum percentage changes, to the given value (no range check) |
| Capture.CaptureThread.SetDetectorMaxSize | acapturethread.cpp:81-83 | only the maximum percentage changes, to the given value (no range check) |
| Capture.CaptureThread.SetCaptureHidden | acapturethread.cpp:89-91 | only the capture-hidden flag changes |
| Capture.CaptureThread.SetDetectHidden | acapturethread.cpp:97-99 | only the detect-hidden flag changes |
| Capture.CaptureThread.Run | acapturethread.cpp:105-230 | the notifications queued and the calls made by the thread body are exactly `Trace` of the device index and classifier path stored in the object, for any script |
| Capture.CaptureThread.RunLoop | acapturethread.cpp:151-224 | the `while` loop, which reallocates the accumulator and emits step by step with a `break` at an empty frame, produces exactly `Loop` from an empty accumulator |
| Capture.CaptureThread.ProcessFrame | acapturethread.cpp:167-222 | one pass over a non-empty frame queues exactly that frame's notifications and makes exactly its calls (a reallocation iff the accumulator's size differs, then the detector), and leaves the accumulator at the frame's size |
| CaptureProperties.StartupFailure | acapturethread.cpp:110-147 | when the device fails to open, the temporary file cannot be created or the classifier fails to load, the notifications are exactly one `failed`: no `captured` (not even the final one) and no `detected` |
| CaptureProperties.StartupCalls | acapturethread.cpp:106-138 | after a successful startup, the first calls open the stored device index, copy the stored classifier path and load it, in that order |
| CaptureProperties.OpenFailureRun | acapturethread.cpp:110-119 | when the device cannot be opened, whatever the rest of the script holds, the run queues only `failed` and opening the device is its only call |
| CaptureProperties.FrameNotifications | acapturethread.cpp:186-223 | a non-empty frame queues exactly one `captured`. It then queues one `detected` iff the detector found a region, built from the first region only. `captured` carries the frame image iff capture is not hidden. `detected` carries the rectangle `(x, y, w, h)` iff detection is hidden, and the cropped image otherwise |
| CaptureProperties.FrameReallocation | acapturethread.cpp:167-188 | an iteration reallocates the accumulator iff the accumulator's rows or cols differ from the frame's, at the frame's size, and then runs the detector on an image of the frame's size |
| CaptureProperties.ScaleMonotone | acapturethread.cpp:181-184 | for `dim >= 0` and `0 <= lo <= hi <= 100`: `0 <= dim*lo/100 <= dim*hi/100 <= dim` |
| CaptureProperties.WindowWithinFrame | acapturethread.cpp:181-184 | for `0 <= min <= max <= 100` the window bounds satisfy `0 <= minBound <= maxBound <= dimension`, in both directions. The setters do not enforce this range, so it is a precondition |
| CaptureProperties.DefaultWindow | acapturethread.cpp:181-184 | the default percentages 20 and 50 on a 640x480 frame give the bounds 128x96 and 320x240 |
| CaptureProperties.NegativePercentTruncates | acapturethread.cpp:181-184 | a negative percentage truncates toward zero: 640 at -1% gives -6, not the -7 of floored division |
| CaptureProperties.FrameCounts | acapturethread.cpp:186-223 | one iteration queues exactly one `captured`, one `detected` iff there is a region, and no `failed` |
| CaptureProperties.LoopCounts | acapturethread.cpp:153-224 | the loop queues one `captured` per frame it processed, one `detected` per processed frame with a region, and exactly one `failed` iff it stopped at an empty frame |
| CaptureProperties.LoopOrdering | acapturethread.cpp:186-223 | in the loop every `detected` directly follows a `captured`, and the loop's first notification is never a `detected` |
| CaptureProperties.LoopFailedIsLast | acapturethread.cpp:153-165 | a `failed` queued in the loop is its last notification: the empty frame leaves the loop |
| CaptureProperties.LoopHasNoEndMarker | acapturethread.cpp:190-202 | no notification queued inside the loop is a `captured` with the null image |
| CaptureProperties.RunCounts | acapturethread.cpp:153-229 | over a started run: #`captured` = processed frames + (1 iff capture is not hidden at the end); #`detected` = processed frames with a region; #`failed` = 1 iff an empty frame was read |
| CaptureProperties.RunEndOfStream | acapturethread.cpp:226-229 | after a successful startup, the last notification is the null-image `captured` iff capture is not hidden when the loop ends, whether the loop ended by interruption or by the empty-frame `break` |
| CaptureProperties.RunOrdering | acapturethread.cpp:153-229 | over any run, every `detected` directly follows a `captured`, and after a `failed` at most the end-of-stream `captured` follows |
| CaptureProperties.LoopPayloads | acapturethread.cpp:190-222 | when every iteration reads the same hidden flags, every loop payload matches them |
| CaptureProperties.SettledPayloads | acapturethread.cpp:190-229 | when no setter runs during the run, every `captured` is payload-free iff capture is hidden, and every `detected` carries a rectangle iff detection is hidden |
| CaptureProperties.LoopWindows | acapturethread.cpp:181-188 | when the percentages read satisfy `0 <= min <= max <= 100`, every detector call gets bounds within its image |
| CaptureProperties.AccAfterFrame | acapturethread.cpp:170-171 | after an iteration, the accumulator has the frame's dimensions |
| CaptureProperties.LoopAccumulator | acapturethread.cpp:170-188 | whenever the detector runs, the accumulator (as left by all allocations so far) has the dimensions of the image the detector runs on |
| CaptureProperties.SteadyStreamAllocatesOnce | acapturethread.cpp:170-171 | frames of one size allocate the accumulator at most once: on the first processed frame, and only if the accumulator had another size |
| CaptureProperties.ThreeFramesRun | acapturethread.cpp:153-229 | three 640x480 frames with no detection and capture shown, then interruption, give three frame images and then the null image |
| Utf8.EncodeChar | requests/aloginftcomrequest.cpp:53 | a character encodes to 1 to 4 bytes: one byte iff it is ASCII, and every byte after the first is a continuation byte |
| Utf8.Encode | requests/aloginftcomrequest.cpp:53-58 | a string of n characters encodes to between n and 4n bytes |
| Utf8.DecodeEncode | requests/aloginftcomrequest.cpp:53-58 | decoding the `toUtf8` bytes gives back the string |
| Utf8.EncodeDecode | requests/aloginftcomrequest.cpp:53-58 | the only bytes that decode to a string are its `toUtf8` encoding: the decoder rejects overlong forms, so decoding is the exact inverse of encoding |
| Utf8.OverlongRejected | requests/aloginftcomrequest.cpp:53-58 | the overlong two-byte form `C0 80` of NUL does not decode |
| Utf8.EncodeInjective | requests/aloginftcomrequest.cpp:53-58 | two strings with the same form body are equal |
| Utf8.EncodeAscii | requests/aloginftcomrequest.cpp:53-58 | an ASCII username or password is sent byte for byte as its character codes |
| QStringArg.Arg | requests/aloginftcomrequest.cpp:67 | `QString::arg`: replaces the lowest-numbered marker and keeps the others. Its properties are in `QStringArg.PlainString`, `QStringArg.ArgSingleMarker` and `QStringArg.ArgFirstOfTwo` |
| QStringArg.MarkerAt | requests/aloginftcomrequest.cpp:67 | a place marker starts with `%` and spans at least two characters of the text |
| QStringArg.PlainPrefix | requests/aloginftcomrequest.cpp:67 | a text without `%` holds no marker and is copied unchanged in front of whatever `arg` does to the rest |
| QStringArg.PlainString | requests/aloginftcomrequest.cpp:67 | `arg` leaves a text without `%` unchanged |
| QStringArg.ArgSingleMarker | requests/aloginftcomrequest.cpp:67 | `arg` puts its argument in place of the only marker of a text |
| QStringArg.ArgFirstOfTwo | requests/aloginftcomrequest.cpp:67 | with markers `%1` and `%2`, `arg` fills `%1` and keeps `%2` as it is |
| QStringArg.ArgSecondOfTwo | requests/aloginftcomrequest.cpp:67 | with a marker numbered 3 or more and then `%2`, `arg` fills `%2` and keeps the other marker as it is |
| Login.LoginUrl | requests/aloginftcomrequest.cpp:66-67 | the login endpoint is `http://`, then the domain verbatim, then `/`, then the locale verbatim, then `/api/login`, at the stated offsets and with the stated length, whatever characters the domain and locale hold |
| Login.UrlAsWritten | requests/aloginftcomrequest.cpp:66-67 | the URL exactly as the two chained `arg` calls build it. Its properties are in `Login.FirstArg`, `Login.UrlAgreesWithoutPercent`, `Login.PercentInDomainCorruptsUrl` and `Login.PercentInDomainExample` |
| Login.FirstArg | requests/aloginftcomrequest.cpp:67 | `QString("http://%1/%2/api/login").arg(domain)` is `http://` + domain + `/%2/api/login`, for every domain |
| Login.SecondArg | requests/aloginftcomrequest.cpp:67 | if the domain has no `%`, the second `arg(locale)` yields the login endpoint |
| Login.UrlAgreesWithoutPercent | requests/aloginftcomrequest.cpp:66-67 | if the domain has no `%`, the URL as written equals `"http://" + domain + "/" + locale + "/api/login"` |
| Login.SecondArgWithMarker | requests/aloginftcomrequest.cpp:67 | for any locale, if the domain is `p%1` with `p` free of `%`, the second `arg` fills that `%1` with the locale and leaves the template's `%2` |
| Login.SecondArgWithHigherMarker | requests/aloginftcomrequest.cpp:67 | for any locale, if the domain is `p%<d>` with `p` free of `%` and `d` a digit from 3 to 9, the second `arg` fills the template's `%2` with the locale and keeps the domain's marker, giving the login endpoint |
| Login.MisplacedLocale | requests/aloginftcomrequest.cpp:66-67 | for every `p` and every locale, `http://` + p + locale + `/%2/api/login` differs from the login endpoint of domain `p%1`: it holds one fewer `1` |
| Login.PercentInDomainCorruptsUrl | requests/aloginftcomrequest.cpp:66-67 | for a domain `p%1` (`p` without `%`) and any locale, the URL as written is `http://` + p + locale + `/%2/api/login`, which differs from the login endpoint |
| Login.PercentInDomainExample | requests/aloginftcomrequest.cpp:66-67 | domain `a%1` with locale `ru` gives `http://aru/%2/api/login`, not the login endpoint |
| Login.HigherMarkerInDomainKept | requests/aloginftcomrequest.cpp:66-67 | a domain `p%<d>` (`p` without `%`, `d` from 3 to 9) gives exactly the login endpoint for every locale: only markers numbered below 3 in the domain corrupt the URL |
| Login.LoginRequest.constructor | requests/aloginftcomrequest.cpp:11-19 | a new request has an empty username and password, and the given domain and locale |
| Login.LoginRequest.Username | requests/aloginftcomrequest.cpp:25 | returns the stored username |
| Login.LoginRequest.Password | requests/aloginftcomrequest.cpp:31 | returns the stored password |
| Login.LoginRequest.SetUsername | requests/aloginftcomrequest.cpp:37 | stores the username; the password is unchanged |
| Login.LoginRequest.SetPassword | requests/aloginftcomrequest.cpp:43 | stores the password; the username is unchanged |
| Login.LoginRequest.BuildUrl | requests/aloginftcomrequest.cpp:66-67 | the URL built is the one the chained `arg` calls give, and it is the login endpoint whenever the domain holds no `%` |
| Login.LoginRequest.BuildForm | requests/aloginftcomrequest.cpp:50-64 | exactly two form-data parts, `username` then `password`, whose bodies are exactly the UTF-8 encodings of the given strings and decode back to them |
| Login.LoginRequest.Send | requests/aloginftcomrequest.cpp:49-70 | posts to the URL as the chained `arg` calls build it, which is the login endpoint whenever the domain holds no `%`, exactly two form-data parts, `username` then `password`, whose bodies are exactly the UTF-8 encodings of the stored username and password (so they decode back to them) |
| Login.ToInt | requests/aloginftcomrequest.cpp:85 | `QJsonValue::toInt()`: always a 32-bit value; a whole number within the 32-bit range reads as itself, and a non-zero result is the number itself. Its effect on the reply is in `Login.OnReplyDataReady`, `Login.NonNumericStatusSucceeds` and `Login.OutOfRangeStatusSucceeds` |
| Login.ToString | requests/aloginftcomrequest.cpp:89 | `QJsonValue::toString()`: a string value reads as itself, and a non-empty result is a string value, so any other value reads as "". Its effect on the reply is in `Login.OnReplyDataReady` |
| Login.OnReplyDataReady | requests/aloginftcomrequest.cpp:76-97 | success iff the HTTP code is 200 and the body is an object whose `status` reads (`toInt`) as 0. A `message` is passed on iff the body is an object whose `message` is a non-empty string, and then it is that string |
| Login.NonOkHttpFails | requests/aloginftcomrequest.cpp:96 | any HTTP code other than 200 is a failure, whatever the body |
| Login.MissingStatusFails | requests/aloginftcomrequest.cpp:77-85 | when the body is empty, is not an object, or has no `status`, the status code stays -1 and the reply is a failure |
| Login.NonNumericStatusSucceeds | requests/aloginftcomrequest.cpp:84-96 | a `status` that is not a number reads as 0, so a 200 reply with it is a success |
| Login.InRangeStatusDecides | requests/aloginftcomrequest.cpp:84-96 | a numeric `status` within the 32-bit range reads as itself, so a 200 reply with it succeeds iff that number is 0 |
| Login.OutOfRangeStatusSucceeds | requests/aloginftcomrequest.cpp:84-96 | a numeric `status` outside the 32-bit range reads as 0, so a 200 reply with it is a success |
| Login.MessageIndependentOfHttpCode | requests/aloginftcomrequest.cpp:87-92 | whether a `message` is passed on, and which, does not depend on the HTTP code or the result |
| Login.SampleReplies | requests/aloginftcomrequest.cpp:76-97 | the replies below are classified as follows: 200 with `{"status":0}` is a success with no message; 200 with status 1 and message "bad credentials" is a failure passing that message on; 200 with a non-object body is a failure; 500 with status 0 and an empty message is a failure with no message |

## Left out

- Pixel data is not modelled; only dimensions are. This covers the grey conversion, `accumulateWeighted` and `convertScaleAbs` (acapturethread.cpp:168, 173-174), so the accumulator's floating-point contents are outside the model. The same goes for the conversion of frames and crops to `QImage` (lines 194-198, 214-218).
- The detector is an oracle: each frame carries the regions `detectMultiScale` reports for it. The scale factor 1.1 and the neighbour count 3 do not affect the model.
- Device I/O, the temporary file and its deletion (lines 125, 142, 149) are reduced to success flags in the script. Log messages and translations are left out.
- Threading is left out:
  - the `QMutex` locking;
  - `QThread` start-up;
  - cooperative interruption, which is modelled as the end of the frame script;
  - queued delivery through `QMetaObject::invokeMethod`, which is modelled as appending to a log in program order.
- Capture.CaptureThread: the device index has no setter in acapturethread.cpp, so it keeps the constructor's value 0. The class declaration (acapturethread.h) is not part of this model.
- Capture.Percent: `cols * det_min` is computed with unbounded integers. The C++ `int` product would overflow, which is undefined behaviour, for any product outside the 32-bit range: above 2^31 - 1, or below -2^31 with a negative percentage.
- Utf8.Encode: a Dafny `char` is a Unicode scalar value, so a `QString` holding a lone surrogate (which `toUtf8` replaces) cannot be expressed.
- Login.LoginRequest: the domain and locale come from the `AFtcomRequest` base class, which is not part of this model. They are fixed when the request is constructed. The network access manager and the parent object are not modelled.
- Login.LoginRequest.Send: `QUrl::fromUserInput`, the multipart byte encoding (boundaries, headers) and the `post()` call are not modelled. `Send` returns the URL string and the two parts it would post.
- Login.OnReplyDataReady: JSON parsing is abstract. The body is empty, not an object, or an object of members. A member is a whole number, a string, or any other value (`JOther`, which covers fractional numbers as well as booleans, null, arrays and objects, all read as 0 by `toInt`). A whole number outside the 32-bit range reads as 0 too.
- QStringArg.MarkerAt: only ASCII `0`-`9` count as marker digits; Qt also accepts other Unicode decimal digits.
- asettingsdialog.cpp is not part of this model. It only builds widgets and a layout.

## Findings

| source | as written | input that shows it | evidently intended | confidence | as-written member | corrected member |
|---|---|---|---|---|---|---|
| requests/aloginftcomrequest.cpp:66-67 | `QString("http://%1/%2/api/login").arg(domain()).arg(locale())`: the first `arg` copies the domain in, and the second `arg` replaces the lowest marker left. So a marker in the domain numbered below the template's `%2` (`%0`, `%1`, `%00`, `%01`, or their `%L` forms) takes the locale while the template's `%2` stays; a `%2` (or `%02`) in the domain takes the locale along with the template's `%2`. A marker numbered 3 or more is kept and the URL is right (`Login.HigherMarkerInDomainKept`) | domain `a%1`, locale `ru` gives `http://aru/%2/api/login` (`Login.PercentInDomainExample`; every domain `p%1` with `p` free of `%` is corrupted for every locale, `Login.PercentInDomainCorruptsUrl`) | `"http://" + domain + "/" + locale + "/api/login"` with both inserted verbatim (the two agree whenever the domain has no `%`, `Login.UrlAgreesWithoutPercent`) | low: only a domain holding a marker numbered 0 to 2 shows it; not executed | Login.UrlAsWritten | Login.LoginUrl |
