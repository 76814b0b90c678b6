/**
 * The capture gate of the `Camera` component (src/components/FaceDetection.tsx):
 * its three state cells as one value, the transition each handler applies to
 * them, and the conditions the component derives from them (camera start,
 * render mode, capture button, detection-loop start).
 *
 * Everything foreign to the gate is a parameter: the number of faces the
 * detector returned, the video element (present or not, with its native size
 * and ready state), whether a 2D drawing context could be obtained, and the
 * encoded still image that the canvas would produce.
 */
module CaptureGate {
  import opened Wrappers

  /** `HTMLMediaElement.HAVE_ENOUGH_DATA`, the ready state the detection loop waits for. */
  const HaveEnoughData: int := 4

  /** The live video element as the gate sees it: native frame size and ready state. */
  datatype Video = Video(videoWidth: nat, videoHeight: nat, readyState: int)

  /** A still image: its raster size and its opaque encoding (a PNG data URL). */
  datatype Image = Image(width: nat, height: nat, dataUrl: string)

  /** The component's three state cells: `modelsLoaded`, `imageSrc`, `faceDetected`. */
  datatype GateState = GateState(modelsLoaded: bool, imageSrc: Option<Image>, faceDetected: bool)

  /** The values the three cells start with on mount. */
  const Initial: GateState := GateState(false, None, false)

  /** What the component renders: the live view with its capture button, or the still with its retake button. */
  datatype View = LiveView(captureEnabled: bool) | StillView(image: Image)

  /** What one `play` event on the video does. */
  datatype PlayAction =
    | Ignore                                   // the video or the overlay canvas is not mounted
    | WaitForData                              // not ready yet: re-arm on `loadeddata`
    | StartLoop(width: nat, height: nat)       // size the overlay and start the periodic detection

  /** Completion of the model load: the ready flag goes up, nothing else moves. */
  function AfterLoad(s: GateState): (t: GateState)
    ensures t.modelsLoaded
    ensures t.imageSrc == s.imageSrc && t.faceDetected == s.faceDetected
  {
    s.(modelsLoaded := true)
  }

  /**
   * One detection tick that saw `count` faces. The flag reflects this tick only:
   * whatever it held before is forgotten, and the tick runs whether or not a
   * still image is shown.
   */
  function AfterTick(s: GateState, count: nat): (t: GateState)
    ensures t.faceDetected <==> count > 0
    ensures t.modelsLoaded == s.modelsLoaded && t.imageSrc == s.imageSrc
  {
    s.(faceDetected := count > 0)
  }

  /**
   * The capture handler. The gate is "a video element is mounted and a face is
   * flagged"; failing it raises the no-face alert. Passing it without a 2D
   * context does nothing at all. Otherwise the image takes the video's native
   * size. Returns the new state and whether the alert was raised.
   */
  function AfterTake(s: GateState, video: Option<Video>, ctxAvailable: bool, dataUrl: string): (r: (GateState, bool))
    ensures r.1 <==> video.None? || !s.faceDetected
    ensures r.0.modelsLoaded == s.modelsLoaded && r.0.faceDetected == s.faceDetected
    ensures r.0.imageSrc != s.imageSrc ==> video.Some? && s.faceDetected && ctxAvailable
    ensures video.Some? && s.faceDetected && ctxAvailable ==>
      r.0.imageSrc == Some(Image(video.value.videoWidth, video.value.videoHeight, dataUrl))
  {
    if video.Some? && s.faceDetected then
      if ctxAvailable then
        (s.(imageSrc := Some(Image(video.value.videoWidth, video.value.videoHeight, dataUrl))), false)
      else
        (s, false)
    else
      (s, true)
  }

  /** The retake handler: back to the live view with the face flag down, whatever came before. */
  function AfterRetake(s: GateState): (t: GateState)
    ensures t.imageSrc.None? && !t.faceDetected
    ensures t.modelsLoaded == s.modelsLoaded
  {
    s.(imageSrc := None, faceDetected := false)
  }

  /** The condition under which the camera effect acquires a stream. */
  predicate ShouldStartCamera(s: GateState)
    ensures ShouldStartCamera(s) ==> s.modelsLoaded && Render(s).LiveView?
    ensures s.modelsLoaded && Render(s).LiveView? ==> ShouldStartCamera(s)
  {
    s.modelsLoaded && s.imageSrc.None?
  }

  /**
   * Whether the camera effect starts the camera after a render in state `s`,
   * `prev` being the state of the previous render (`None` on mount). The effect
   * runs on mount and whenever `modelsLoaded` or `imageSrc` changed.
   */
  predicate CameraStartRequested(prev: Option<GateState>, s: GateState)
    ensures CameraStartRequested(prev, s) ==> s.modelsLoaded && s.imageSrc.None?
    ensures prev.None? ==> (CameraStartRequested(prev, s) <==> ShouldStartCamera(s))
    ensures prev.Some? && prev.value.modelsLoaded == s.modelsLoaded && prev.value.imageSrc == s.imageSrc
      ==> !CameraStartRequested(prev, s)
    ensures prev.Some? && (prev.value.modelsLoaded != s.modelsLoaded || prev.value.imageSrc != s.imageSrc)
      ==> (CameraStartRequested(prev, s) <==> ShouldStartCamera(s))
  {
    (prev.None? || prev.value.modelsLoaded != s.modelsLoaded || prev.value.imageSrc != s.imageSrc)
    && ShouldStartCamera(s)
  }

  /**
   * The render: the live view exactly when no image is held, its capture button
   * enabled exactly when a face is flagged; otherwise the held image.
   */
  function Render(s: GateState): (v: View)
    ensures v.LiveView? <==> s.imageSrc.None?
    ensures v.LiveView? ==> (v.captureEnabled <==> s.faceDetected)
    ensures v.StillView? ==> s.imageSrc == Some(v.image)
  {
    match s.imageSrc
    case None => LiveView(s.faceDetected)
    case Some(img) => StillView(img)
  }

  /** The readiness test of the `play` handler. */
  predicate LoopMayStart(readyState: int)
    ensures LoopMayStart(readyState) ==> readyState == HaveEnoughData
    ensures readyState == HaveEnoughData ==> LoopMayStart(readyState)
  {
    readyState == HaveEnoughData
  }

  /**
   * The `play` handler: nothing unless both the video and the overlay canvas
   * are mounted; wait for data unless the video is fully ready; otherwise start
   * the loop with the overlay sized to the video's native frame.
   */
  function OnVideoPlay(video: Option<Video>, canvasPresent: bool): (a: PlayAction)
    ensures a.Ignore? <==> video.None? || !canvasPresent
    ensures a.WaitForData? <==> video.Some? && canvasPresent && !LoopMayStart(video.value.readyState)
    ensures a.StartLoop? <==> video.Some? && canvasPresent && LoopMayStart(video.value.readyState)
    ensures a.StartLoop? ==> a.width == video.value.videoWidth && a.height == video.value.videoHeight
  {
    if video.Some? && canvasPresent then
      if !LoopMayStart(video.value.readyState) then WaitForData
      else StartLoop(video.value.videoWidth, video.value.videoHeight)
    else
      Ignore
  }
}
