# Face-presence gated capture: a Dafny model

This project models the capture gate of the `Camera` React component
(`src/components/FaceDetection.tsx`). The component shows a live camera
feed with a face-detection overlay and lets the user take a still
("selfie") only while the last detection tick saw a face. It keeps three
state cells:

- `modelsLoaded`: the detector's weights have been loaded;
- `imageSrc`: the captured still, or none;
- `faceDetected`: the result of the latest detection tick.

Four handlers change these cells: model-load completion, a detection
tick, the capture button and the retake button. From the cells the
component derives when to start the camera, which view to render, whether
the capture button is enabled, and (from the video's ready state) whether
the detection loop may start.

Files:

- `wrappers.dfy`: `Option`, standing in for a nullable value.
- `capture_gate.dfy` (module `CaptureGate`): the state as a value
  (`GateState`), one pure transition per handler, the derived conditions,
  the render (`View`) and the `play` handler's decision (`PlayAction`).
- `camera.dfy` (module `CameraComponent`): class `Camera`, whose fields
  are the three cells. Its handler methods update the fields in place, and
  each one's contract ties the new state to the matching `CaptureGate`
  transition.
- `gate_traces.dfy` (module `GateTraces`): sequences of atomic handler
  calls and `play` events (`Event`, `Run`) and the properties that hold for
  every such sequence.

Foreign collaborators are parameters:

- the detector's result is the number of faces it returned;
- the video element is `Option<Video>`, carrying its native size and ready
  state;
- whether the scratch canvas yields a 2D context is a boolean;
- the encoded PNG data URL is an opaque string.

## Model

| member | source | states |
|---|---|---|
| CaptureGate.AfterLoad | src/components/FaceDetection.tsx:13-17 | model-load completion raises `modelsLoaded` and leaves the image and face flag alone |
| CaptureGate.AfterTick | src/components/FaceDetection.tsx:58-73 | after a tick the face flag is up iff the detector returned at least one face, whatever it was before; the image and ready flag are untouched |
| CaptureGate.AfterTake | src/components/FaceDetection.tsx:77-91 | the alert is raised iff the video element is missing or no face is flagged; the image changes only when video, face and 2D context are all present, and then it has the video's native width and height; the face flag and ready flag never change |
| CaptureGate.AfterRetake | src/components/FaceDetection.tsx:93-96 | retake clears the image and the face flag from any state and keeps `modelsLoaded` |
| CaptureGate.Render | src/components/FaceDetection.tsx:98-136 | the live view is rendered exactly when no image is held, with its capture button enabled exactly when a face is flagged; otherwise the still view shows the held image |
| CaptureGate.OnVideoPlay | src/components/FaceDetection.tsx:41-57 | the `play` handler's decision: nothing without both the video and the overlay canvas; with both, it re-arms on `loadeddata` iff the ready state is not 4 (`HAVE_ENOUGH_DATA`), else it starts the loop with the overlay sized to the video's native frame; `TicksFollowLoadFromLifecycle` uses it as the gate that every tick follows |
| CaptureGate.ShouldStartCamera | src/components/FaceDetection.tsx:36 | the camera-start condition holds exactly when the models are loaded and the live view is rendered (no image held) |
| CaptureGate.CameraStartRequested | src/components/FaceDetection.tsx:36-39 | the camera starts only when `modelsLoaded` is up and no image is held; on mount, and after any render that moves `modelsLoaded` or `imageSrc`, it starts iff that condition holds; a render that moves neither dependency never starts it, whatever happens to the face flag |
| CaptureGate.LoopMayStart | src/components/FaceDetection.tsx:47 | the detection loop may start exactly when the ready state is 4 (`HAVE_ENOUGH_DATA`): at 4 it may, at any other ready state it may not |
| CameraComponent.Camera.constructor | src/components/FaceDetection.tsx:7-9 | on mount the models are not loaded, no image is held and no face is flagged |
| CameraComponent.Camera.ModelsLoadedDone | src/components/FaceDetection.tsx:16 | sets `modelsLoaded` in place; the other cells are unchanged |
| CameraComponent.Camera.DetectionTick | src/components/FaceDetection.tsx:69 | sets `faceDetected` to "count > 0" in place; the other cells are unchanged |
| CameraComponent.Camera.TakeSelfie | src/components/FaceDetection.tsx:77-91 | returns whether the no-face alert was raised (video missing or no face); on the alert, or with no 2D context, no cell changes; otherwise `imageSrc` becomes the native-size image |
| CameraComponent.Camera.Retake | src/components/FaceDetection.tsx:93-96 | `imageSrc` cleared and `faceDetected` false afterwards, `modelsLoaded` unchanged |
| GateTraces.ModelsLoadedMonotonic | src/components/FaceDetection.tsx:7-16 | after any calls, `modelsLoaded` is up iff it was up at the start or a load completed among them; no handler lowers it |
| GateTraces.FaceFlagFollowsLastTick | src/components/FaceDetection.tsx:69-95 | the face flag is decided by the last tick or retake alone: up iff that call was a tick that saw a face |
| GateTraces.CapturedImageWasGated | src/components/FaceDetection.tsx:77-96 | starting without an image, any image held afterwards came from a capture call made while a face was flagged and a video was present, with a 2D context, at the video's native size, and no retake followed it |
| GateTraces.NothingBeforeModelsLoad | src/components/FaceDetection.tsx:36-73 | from mount, when ticks only follow the model load, neither a face flag nor an image exists before the models are loaded |
| GateTraces.TicksFollowLoadFromLifecycle | src/components/FaceDetection.tsx:36-73 | when every tick follows a `play` event that the readiness gate let start the loop, and every such event follows a camera start, every tick follows a completed model load |
| GateTraces.NoCaptureBeforeModelsLoad | src/components/FaceDetection.tsx:36-91 | under that lifecycle, from mount, a face flag or a captured image exists only once the models are loaded |
| GateTraces.LoopStartNeedsReadyVideo | src/components/FaceDetection.tsx:41-57 | a `play` event starts the loop iff the video and canvas are mounted and the video's ready state is 4 |
| GateTraces.LoadStartsCamera | src/components/FaceDetection.tsx:16-39 | completion of the model load while no image is held moves the `modelsLoaded` dependency and meets the start condition, so the camera is started |
| GateTraces.RetakeRestartsCamera | src/components/FaceDetection.tsx:36-39 | retaking from a still image with the models loaded changes an effect dependency and meets the start condition, so the camera is started again; the view returns to live with the capture button disabled |
| GateTraces.TickNeverRestartsCamera | src/components/FaceDetection.tsx:36-39 | a tick moves neither `modelsLoaded` nor `imageSrc`, so it never triggers the camera effect |
| GateTraces.CaptureShowsStill | src/components/FaceDetection.tsx:77-123 | a successful capture in the live view switches to the still view of the native-size image and stops the camera start condition from holding |
| GateTraces.ScenarioFaceThenCapture | src/components/FaceDetection.tsx:16-123 | load, then a tick with one face: the capture button is enabled, and capturing shows the still |
| GateTraces.ScenarioNoFaceAlerts | src/components/FaceDetection.tsx:16-91 | load, then a tick with no face: capturing raises the alert and no image is held |

## Left out

- Model loading through face-api.js (`loadFromUri`) is not modelled. Its completion is the `ModelsLoaded` event. A failed load never completes, so it is simply absent from a run.
- Detection inference (`detectAllFaces`), `resizeResults` and `drawDetections` are floating-point library calls. They are not modelled. A tick is reduced to the number of faces found. The overlay sizing done by `matchDimensions` is modelled by `StartLoop`'s width and height.
- Camera acquisition (`getUserMedia`, binding `srcObject`) and its logged failure are device I/O. Only the decision to start the camera is modelled: `ShouldStartCamera` and `CameraStartRequested`.
- Canvas rasterisation and `toDataURL` are not modelled. The encoded image is an opaque parameter. `toDataURL` never returns an empty string, so the JavaScript truthiness test `!imageSrc` is modelled as "no image held".
- The `setInterval` timer is not modelled. Neither are overlapping asynchronous ticks or their out-of-order completion. Each tick is one atomic call, and a run applies ticks in completion order (last write wins).
- The timer is never cancelled, and the model keeps that behaviour: ticks still change the face flag while a still image is shown.
- The re-registered `loadeddata` listener is modelled only as the `WaitForData` decision. The listeners that pile up are not modelled.
- React's batched, asynchronous state updates are not modelled; each handler's updates are applied atomically.
- JSX markup and styling are left out.
- Mounting and unmounting of the video and canvas elements (which element a ref points to) are parameters of the handlers, not derived from the render mode.
- NothingBeforeModelsLoad: assumes that ticks only come after the model load (`TicksFollowLoad`). `TicksFollowLoadFromLifecycle` derives that assumption from the two lifecycle premises below.
- TicksFollowLoadFromLifecycle: assumes that every tick follows a `play` event that started the loop (`TicksFollowLoopStart`). The source sets its interval nowhere else, but the timer itself is not modelled.
- TicksFollowLoadFromLifecycle: assumes that every loop-starting `play` event follows a camera start (`LoopStartsFollowCameraStart`). The video only plays a stream the camera effect bound to it, but stream binding and playback are not modelled.
- NoCaptureBeforeModelsLoad: rests on the same two lifecycle premises as `TicksFollowLoadFromLifecycle`.
