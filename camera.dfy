/**
 * The `Camera` component as an object: its three state cells are fields and
 * each handler updates them in place, atomically. Each method's effect is the
 * matching transition of `CaptureGate`.
 */
module CameraComponent {
  import opened Wrappers
  import opened CaptureGate

  class Camera {
    var modelsLoaded: bool
    var imageSrc: Option<Image>
    var faceDetected: bool

    /** The current values of the three cells. */
    function State(): (t: GateState)
      reads this
    {
      GateState(modelsLoaded, imageSrc, faceDetected)
    }

    /** Mount: models not loaded, no image, no face. */
    constructor ()
      ensures State() == Initial
    {
      modelsLoaded := false;
      imageSrc := None;
      faceDetected := false;
    }

    /** The model load has completed. */
    method ModelsLoadedDone()
      modifies this
      ensures modelsLoaded
      ensures imageSrc == old(imageSrc) && faceDetected == old(faceDetected)
      ensures State() == AfterLoad(old(State()))
    {
      modelsLoaded := true;
    }

    /** A detection tick whose detector call returned `count` faces. */
    method DetectionTick(count: nat)
      modifies this
      ensures faceDetected <==> count > 0
      ensures modelsLoaded == old(modelsLoaded) && imageSrc == old(imageSrc)
      ensures State() == AfterTick(old(State()), count)
    {
      faceDetected := count > 0;
    }

    /**
     * The capture button's handler. `video` is the mounted video element, if any;
     * `ctxAvailable` says whether the scratch canvas yields a 2D context;
     * `dataUrl` is what that canvas encodes.
     */
    method TakeSelfie(video: Option<Video>, ctxAvailable: bool, dataUrl: string) returns (alerted: bool)
      modifies this
      ensures alerted <==> video.None? || !old(faceDetected)
      ensures modelsLoaded == old(modelsLoaded) && faceDetected == old(faceDetected)
      ensures alerted || !ctxAvailable ==> imageSrc == old(imageSrc)
      ensures !alerted && ctxAvailable ==>
        imageSrc == Some(Image(video.value.videoWidth, video.value.videoHeight, dataUrl))
      ensures (State(), alerted) == AfterTake(old(State()), video, ctxAvailable, dataUrl)
    {
      if video.Some? && faceDetected {
        var width := video.value.videoWidth;
        var height := video.value.videoHeight;
        if ctxAvailable {
          imageSrc := Some(Image(width, height, dataUrl));
        }
        alerted := false;
      } else {
        alerted := true;
      }
    }

    /** The retake button's handler. */
    method Retake()
      modifies this
      ensures imageSrc.None? && !faceDetected
      ensures modelsLoaded == old(modelsLoaded)
      ensures State() == AfterRetake(old(State()))
    {
      imageSrc := None;
      faceDetected := false;
    }
  }
}
