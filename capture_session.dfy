/**
 * The browser-side capture session (client.js): the camera stream, the facing mode, the
 * capture button's disabled flag and the alerts shown to the user. The outcomes of the
 * browser's media, playback and network calls arrive as method parameters.
 */
module CaptureSession {

  import opened Wrappers
  import DataUrl

  datatype Facing = User | Environment

  /** A live camera stream, with the facing mode it was requested with. */
  datatype Stream = Stream(facing: Facing)

  /** What `uploadBase64` gets back from `POST /api/upload-base64`. */
  datatype UploadOutcome =
    | Stored                        // a 2xx response
    | Refused(error: string)        // a non-2xx response; its `error` field, or "" without one
    | Thrown(name: string, message: string) // `fetch` or reading the reply threw this error

  /** One observable step of a capture, in the order it happens. */
  datatype Step =
    | CameraStarted(live: bool)
    | CountdownShown(digit: int)
    | FrameDrawn(width: nat, height: nat)
    | UploadSent
    | GalleryRefreshed

  /** A step with the state of the capture button while it happens. */
  datatype Traced = Traced(step: Step, buttonDisabled: bool)

  const TickMs := 850
  const RestartDelayMs := 250
  const TimerCountdown := 3
  const DefaultWidth := 1280

  const CameraError := "Gagal mengakses kamera \U{2014} periksa izin/perangkat."
  const UploadErrorPrefix := "Gagal mengunggah foto: "

  /** The digits a countdown from `n` shows: n, n-1, ..., 1. */
  function Countdown(n: nat): seq<int> {
    if n == 0 then [] else [n as int] + Countdown(n - 1)
  }

  /** A countdown from `n` shows `n` digits, the `i`-th being `n - i`: never 0, ending at 1. */
  lemma {:induction false} CountdownShape(n: nat)
    ensures |Countdown(n)| == n
    ensures forall i :: 0 <= i < n ==> Countdown(n)[i] == n - i
  {
    if n > 0 {
      CountdownShape(n - 1);
    }
  }

  /** The countdown strictly decreases and never shows a digit below 1. */
  lemma CountdownDecreases(n: nat)
    ensures forall i, j :: 0 <= i < j < |Countdown(n)| ==> Countdown(n)[i] > Countdown(n)[j]
    ensures 0 !in Countdown(n)
  {
    CountdownShape(n);
  }

  /**
   * `runCountdown(n)`: the digits shown, in order, the number of `TickMs` timer ticks and
   * the milliseconds they take before the promise resolves. The first digit is shown at
   * once; each tick decrements and either resolves (at zero or below) or shows the next digit.
   */
  method RunCountdown(n: int) returns (shown: seq<int>, ticks: nat, elapsedMs: nat)
    ensures n > 0 ==> shown == Countdown(n) && ticks == n
    ensures n <= 0 ==> shown == [n] && ticks == 1
    ensures elapsedMs == ticks * TickMs
  {
    shown := [n];
    var cur := n - 1;
    ticks := 1;
    elapsedMs := TickMs;
    while cur > 0
      invariant n > 0 ==> 0 <= cur < n && ticks == n - cur && |shown| == ticks
      invariant n > 0 ==> forall i :: 0 <= i < |shown| ==> shown[i] == n - i
      invariant n <= 0 ==> shown == [n] && ticks == 1
      invariant elapsedMs == ticks * TickMs
      decreases cur
    {
      shown := shown + [cur];
      cur := cur - 1;
      ticks := ticks + 1;
      elapsedMs := elapsedMs + TickMs;
    }
    if n > 0 {
      CountdownShape(n);
      assert shown == Countdown(n);
    }
  }

  /** `Math.round(w * 9 / 16)` for a non-negative width. */
  function SixteenNinthsHeight(w: nat): nat {
    (9 * w + 8) / 16
  }

  /**
   * The canvas size of `doCapture`: `videoWidth || 1280` by `videoHeight || Math.round(w * 9 / 16)`.
   * The fallback height is the integer nearest to 9w/16, halves rounded up; both sides are positive.
   */
  function CaptureSize(videoWidth: nat, videoHeight: nat): (size: (nat, nat))
    ensures size.0 == (if videoWidth != 0 then videoWidth else DefaultWidth)
    ensures videoHeight != 0 ==> size.1 == videoHeight
    ensures videoHeight == 0 ==> -8 < 16 * size.1 - 9 * size.0 <= 8
    ensures size.0 > 0 && size.1 > 0
    ensures videoWidth == 0 && videoHeight == 0 ==> size == (1280, 720)
  {
    var w := if videoWidth != 0 then videoWidth else DefaultWidth;
    var h := if videoHeight != 0 then videoHeight else SixteenNinthsHeight(w);
    (w, h)
  }

  /** The characters of the base64 alphabet, which `canvas.toDataURL` writes after the comma. */
  predicate IsBase64Char(c: char) {
    'A' <= c <= 'Z' || 'a' <= c <= 'z' || '0' <= c <= '9' || c == '+' || c == '/' || c == '='
  }

  /** The PNG snapshot a capture uploads passes the server's check and is stored as `png`. */
  lemma SnapshotPayloadAccepted(base64: string)
    requires |base64| > 0 && forall i :: 0 <= i < |base64| ==> IsBase64Char(base64[i])
    ensures DataUrl.Parse("data:image/png;base64," + base64) == Some(DataUrl.Payload("png", base64))
    ensures DataUrl.Extension(DataUrl.Payload("png", base64).MediaType()) == "png"
  {
    var p := DataUrl.Payload("png", base64);
    assert p.WellFormed();
    assert p.Format() == "data:image/png;base64," + base64;
    DataUrl.ParseFormat(p);
    DataUrl.ExtensionIsSubtype(p);
  }

  /**
   * The alert `uploadBase64` shows for a failed upload; None when the upload succeeded.
   * A refusal shows the server's `error` or "Upload failed"; a thrown error shows its message,
   * or, when that is empty, the error itself, which JavaScript renders as its name.
   */
  function UploadAlert(outcome: UploadOutcome): (r: Option<string>)
    ensures r.None? <==> outcome.Stored?
    ensures r.Some? ==> UploadErrorPrefix <= r.value
    ensures outcome.Refused? ==> |r.value| > |UploadErrorPrefix|
    ensures outcome.Refused? && outcome.error != "" ==> r.value[|UploadErrorPrefix|..] == outcome.error
    ensures outcome.Thrown? && outcome.message != "" ==> r.value[|UploadErrorPrefix|..] == outcome.message
  {
    match outcome
    case Stored => None
    case Refused(error) => Some(UploadErrorPrefix + (if error == "" then "Upload failed" else error))
    case Thrown(name, message) => Some(UploadErrorPrefix + (if message == "" then name else message))
  }

  /** The steps of a countdown, as a capture records them. */
  function CountdownSteps(digits: seq<int>): seq<Step> {
    seq(|digits|, i requires 0 <= i < |digits| => CountdownShown(digits[i]))
  }

  function StepsOf(trace: seq<Traced>): seq<Step> {
    seq(|trace|, i requires 0 <= i < |trace| => trace[i].step)
  }

  lemma StepsOfAppend(a: seq<Traced>, b: seq<Traced>)
    ensures StepsOf(a + b) == StepsOf(a) + StepsOf(b)
  {
  }

  /** Every step of `trace` happens with the capture button in state `disabled`. */
  predicate Marked(trace: seq<Traced>, disabled: bool) {
    forall i :: 0 <= i < |trace| ==> trace[i].buttonDisabled == disabled
  }

  lemma MarkedAppend(a: seq<Traced>, b: seq<Traced>, disabled: bool)
    requires Marked(a, disabled) && Marked(b, disabled)
    ensures Marked(a + b, disabled)
  {
  }

  /** The countdown steps for `digits`, each with the button in state `disabled`. */
  function CountdownTrace(digits: seq<int>, disabled: bool): (t: seq<Traced>)
    ensures StepsOf(t) == CountdownSteps(digits) && Marked(t, disabled)
  {
    seq(|digits|, i requires 0 <= i < |digits| => Traced(CountdownShown(digits[i]), disabled))
  }

  class Session {

    var stream: Option<Stream>
    var facing: Facing
    /** The preview is shown and the start button reads as pressed. */
    var previewActive: bool
    var captureDisabled: bool
    var alerts: seq<string>

    /** The preview is only ever shown over a stream. */
    ghost predicate Valid()
      reads this
    {
      previewActive ==> stream.Some?
    }

    /** The state at page load: no stream, front camera, button enabled. */
    constructor ()
      ensures Valid()
      ensures stream == None && facing == User && !previewActive && !captureDisabled && alerts == []
    {
      stream := None;
      facing := User;
      previewActive := false;
      captureDisabled := false;
      alerts := [];
    }

    /**
     * `startCamera`: a no-op while a stream exists. Otherwise `granted` is whether
     * `getUserMedia` resolves and `playOk` whether `video.play()` does; a granted stream is
     * kept even when playback fails, and any failure adds the camera alert.
     */
    method StartCamera(granted: bool, playOk: bool)
      requires Valid()
      modifies this
      ensures Valid()
      ensures facing == old(facing) && captureDisabled == old(captureDisabled)
      ensures old(stream).Some? ==>
        stream == old(stream) && previewActive == old(previewActive) && alerts == old(alerts)
      ensures old(stream).None? ==>
        && stream == (if granted then Some(Stream(facing)) else None)
        && previewActive == (granted && playOk)
        && alerts == old(alerts) + (if granted && playOk then [] else [CameraError])
    {
      if stream.Some? {
        return;
      }
      if !granted {
        alerts := alerts + [CameraError];
        return;
      }
      stream := Some(Stream(facing));
      if !playOk {
        alerts := alerts + [CameraError];
        return;
      }
      previewActive := true;
    }

    /** `stopCamera`: a no-op without a stream; otherwise the tracks stop and the preview hides. */
    method StopCamera()
      requires Valid()
      modifies this
      ensures Valid()
      ensures stream == None
      ensures old(stream).None? ==> previewActive == old(previewActive)
      ensures old(stream).Some? ==> !previewActive
      ensures facing == old(facing) && captureDisabled == old(captureDisabled) && alerts == old(alerts)
    {
      if stream.None? {
        return;
      }
      stream := None;
      previewActive := false;
    }

    /** The start/stop button: stops a live camera, starts an idle one. */
    method ClickStart(granted: bool, playOk: bool)
      requires Valid()
      modifies this
      ensures Valid()
      ensures facing == old(facing) && captureDisabled == old(captureDisabled)
      ensures old(stream).Some? ==> stream == None && !previewActive && alerts == old(alerts)
      ensures old(stream).None? ==>
        && stream == (if granted then Some(Stream(facing)) else None)
        && previewActive == (granted && playOk)
        && alerts == old(alerts) + (if granted && playOk then [] else [CameraError])
    {
      if stream.Some? {
        StopCamera();
      } else {
        StartCamera(granted, playOk);
      }
    }

    /**
     * The flip toggle: facing becomes `environment` exactly when `checked`. A live camera is
     * stopped and, `RestartDelayMs` later, started again with the new facing (the outcomes of
     * that restart are `granted` and `playOk`); an idle camera only records the preference.
     */
    method ChangeFlip(checked: bool, granted: bool, playOk: bool) returns (restartAfterMs: Option<int>)
      requires Valid()
      modifies this
      ensures Valid()
      ensures facing == (if checked then Environment else User)
      ensures captureDisabled == old(captureDisabled)
      ensures old(stream).None? ==>
        restartAfterMs == None && stream == None
        && previewActive == old(previewActive) && alerts == old(alerts)
      ensures old(stream).Some? ==>
        && restartAfterMs == Some(RestartDelayMs)
        && stream == (if granted then Some(Stream(facing)) else None)
        && previewActive == (granted && playOk)
        && alerts == old(alerts) + (if granted && playOk then [] else [CameraError])
    {
      facing := if checked then Environment else User;
      restartAfterMs := None;
      if stream.Some? {
        StopCamera();
        restartAfterMs := Some(RestartDelayMs);
        StartCamera(granted, playOk);
      }
    }

    /**
     * `uploadBase64`: posts the frame; a refusal or a thrown error is reported with an alert
     * and swallowed, so the capture always goes on to refresh the gallery.
     */
    method UploadBase64(upload: UploadOutcome)
      requires Valid()
      modifies this
      ensures Valid()
      ensures stream == old(stream) && facing == old(facing)
      ensures previewActive == old(previewActive) && captureDisabled == old(captureDisabled)
      ensures alerts == old(alerts) + (match UploadAlert(upload) case Some(a) => [a] case None => [])
    {
      var alert := UploadAlert(upload);
      if alert.Some? {
        alerts := alerts + [alert.value];
      }
    }

    /**
     * `doCapture`: starts the camera if there is no stream, counts down from 3 when
     * `timerChecked`, draws a frame of `CaptureSize`, uploads it and refreshes the gallery
     * whatever the upload's outcome. `videoWidth` and `videoHeight` are what the video element
     * reports; without a stream it reports 0 x 0. Every step happens with the capture button
     * in the state it had when the capture began.
     */
    method DoCapture(timerChecked: bool, granted: bool, playOk: bool,
                     videoWidth: nat, videoHeight: nat, upload: UploadOutcome)
      returns (trace: seq<Traced>)
      requires Valid()
      modifies this
      ensures Valid()
      ensures captureDisabled == old(captureDisabled) && facing == old(facing)
      ensures previewActive == (if old(stream).None? then granted && playOk else old(previewActive))
      ensures old(stream).Some? ==> stream == old(stream)
      ensures old(stream).None? ==> stream == (if granted then Some(Stream(facing)) else None)
      ensures Marked(trace, captureDisabled)
      ensures var size := if stream.Some? then CaptureSize(videoWidth, videoHeight) else CaptureSize(0, 0);
        StepsOf(trace) ==
          (if old(stream).None? then [CameraStarted(stream.Some?)] else [])
          + (if timerChecked then CountdownSteps(Countdown(TimerCountdown)) else [])
          + [FrameDrawn(size.0, size.1), UploadSent, GalleryRefreshed]
      ensures alerts == old(alerts)
          + (if old(stream).None? && !(granted && playOk) then [CameraError] else [])
          + (match UploadAlert(upload) case Some(a) => [a] case None => [])
    {
      var busy := captureDisabled;
      var started: seq<Traced> := [];
      if stream.None? {
        StartCamera(granted, playOk);
        started := [Traced(CameraStarted(stream.Some?), busy)];
      }
      var live := stream.Some?;
      assert alerts == old(alerts) + (if old(stream).None? && !(granted && playOk) then [CameraError] else []);
      assert StepsOf(started) == if old(stream).None? then [CameraStarted(live)] else [];
      var counted: seq<Traced> := [];
      var countdownFrom := if timerChecked then TimerCountdown else 0;
      if countdownFrom > 0 {
        var shown, ticks, elapsedMs := RunCountdown(countdownFrom);
        counted := CountdownTrace(shown, busy);
      }
      assert StepsOf(counted) == if timerChecked then CountdownSteps(Countdown(TimerCountdown)) else [];
      var size := if live then CaptureSize(videoWidth, videoHeight) else CaptureSize(0, 0);
      var finished := [Traced(FrameDrawn(size.0, size.1), busy), Traced(UploadSent, busy), Traced(GalleryRefreshed, busy)];
      assert StepsOf(finished) == [FrameDrawn(size.0, size.1), UploadSent, GalleryRefreshed];
      StepsOfAppend(started, counted);
      StepsOfAppend(started + counted, finished);
      MarkedAppend(started, counted, busy);
      MarkedAppend(started + counted, finished, busy);
      UploadBase64(upload);
      trace := started + counted + finished;
    }

    /**
     * The capture button. While it is disabled the browser delivers no click. Otherwise it is
     * disabled, `doCapture` runs, and the `finally` enables it again.
     */
    method ClickCapture(timerChecked: bool, granted: bool, playOk: bool,
                        videoWidth: nat, videoHeight: nat, upload: UploadOutcome)
      returns (trace: seq<Traced>)
      requires Valid()
      modifies this
      ensures Valid()
      ensures old(captureDisabled) ==>
        && trace == [] && captureDisabled
        && stream == old(stream) && facing == old(facing)
        && previewActive == old(previewActive) && alerts == old(alerts)
      ensures !old(captureDisabled) ==>
        && !captureDisabled
        && facing == old(facing)
        && previewActive == (if old(stream).None? then granted && playOk else old(previewActive))
        && (forall i :: 0 <= i < |trace| ==> trace[i].buttonDisabled)
        && (old(stream).Some? ==> stream == old(stream))
        && (old(stream).None? ==> stream == (if granted then Some(Stream(facing)) else None))
      ensures !old(captureDisabled) ==>
        var size := if stream.Some? then CaptureSize(videoWidth, videoHeight) else CaptureSize(0, 0);
        StepsOf(trace) ==
          (if old(stream).None? then [CameraStarted(stream.Some?)] else [])
          + (if timerChecked then CountdownSteps(Countdown(TimerCountdown)) else [])
          + [FrameDrawn(size.0, size.1), UploadSent, GalleryRefreshed]
      ensures !old(captureDisabled) ==>
        alerts == old(alerts)
          + (if old(stream).None? && !(granted && playOk) then [CameraError] else [])
          + (match UploadAlert(upload) case Some(a) => [a] case None => [])
    {
      if captureDisabled {
        return [];
      }
      captureDisabled := true;
      trace := DoCapture(timerChecked, granted, playOk, videoWidth, videoHeight, upload);
      captureDisabled := false;
    }
  }
}