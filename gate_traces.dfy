/**
 * Sequences of handler calls on the capture gate, each call atomic, and the
 * properties that hold of every such sequence.
 */
module GateTraces {
  import opened Wrappers
  import opened CaptureGate

  /** One atomic handler call. */
  datatype Event =
    | ModelsLoaded
    | Tick(count: nat)
    | Take(video: Option<Video>, ctxAvailable: bool, dataUrl: string)
    | Retake
    | Play(video: Option<Video>, canvasPresent: bool)

  function Step(s: GateState, e: Event): (t: GateState)
  {
    match e
    case ModelsLoaded => AfterLoad(s)
    case Tick(n) => AfterTick(s, n)
    case Take(v, ctx, url) => AfterTake(s, v, ctx, url).0
    case Retake => AfterRetake(s)
    case Play(_, _) => s   // the play handler changes none of the three cells
  }

  /** The state after the calls in `evs`, in order, starting from `s`. */
  function Run(s: GateState, evs: seq<Event>): (t: GateState)
    decreases |evs|
  {
    if evs == [] then s else Step(Run(s, evs[..|evs| - 1]), evs[|evs| - 1])
  }

  /** `e` is a capture call that passed the gate in state `pre` and produced `img`. */
  predicate GatedCapture(pre: GateState, e: Event, img: Image)
  {
    e.Take? && pre.faceDetected && e.video.Some? && e.ctxAvailable
    && img == Image(e.video.value.videoWidth, e.video.value.videoHeight, e.dataUrl)
  }

  /**
   * Every detection tick comes after the model load has completed: the loop is
   * started from the video's `play` event, the video only plays a stream the
   * camera effect acquired, and that effect only acquires one once the models
   * are loaded.
   */
  predicate TicksFollowLoad(evs: seq<Event>)
  {
    forall i :: 0 <= i < |evs| && evs[i].Tick? ==> ModelsLoaded in evs[..i]
  }

  /**
   * The ready flag is never lowered: after any calls it is up exactly when it
   * was up at the start or a load completed among them.
   */
  lemma {:induction false} ModelsLoadedMonotonic(s: GateState, evs: seq<Event>)
    ensures Run(s, evs).modelsLoaded <==> s.modelsLoaded || ModelsLoaded in evs
    decreases |evs|
  {
    if evs != [] {
      var init := evs[..|evs| - 1];
      ModelsLoadedMonotonic(s, init);
      assert evs == init + [evs[|evs| - 1]];
    }
  }

  /**
   * The face flag carries no history: it is decided by the last tick or
   * retake, and is up exactly when that was a tick that saw a face.
   */
  lemma {:induction false} FaceFlagFollowsLastTick(s: GateState, evs: seq<Event>, i: nat)
    requires i < |evs| && (evs[i].Tick? || evs[i].Retake?)
    requires forall j :: i < j < |evs| ==> !evs[j].Tick? && !evs[j].Retake?
    ensures Run(s, evs).faceDetected <==> evs[i].Tick? && evs[i].count > 0
    decreases |evs|
  {
    if i < |evs| - 1 {
      var init := evs[..|evs| - 1];
      FaceFlagFollowsLastTick(s, init, i);
    }
  }

  /**
   * The call at index `i` of `evs` (run from `s`) is a capture that passed the
   * gate and produced `img`, and no retake follows it.
   */
  predicate CapturedAt(s: GateState, evs: seq<Event>, i: int, img: Image)
  {
    0 <= i < |evs| && GatedCapture(Run(s, evs[..i]), evs[i], img)
    && forall j :: i < j < |evs| ==> !evs[j].Retake?
  }

  /**
   * A held image was produced by a capture call that passed the gate, with a
   * face flagged at that moment, at the video's native size, and no retake
   * came after it.
   */
  lemma {:induction false} CapturedImageWasGated(s: GateState, evs: seq<Event>)
    requires s.imageSrc.None? && Run(s, evs).imageSrc.Some?
    ensures exists i :: CapturedAt(s, evs, i, Run(s, evs).imageSrc.value)
    decreases |evs|
  {
    if evs == [] {
      assert false;
    }
    var n := |evs|;
    var init := evs[..n - 1];
    var pre := Run(s, init);
    var img := Run(s, evs).imageSrc.value;
    if GatedCapture(pre, evs[n - 1], img) {
      assert CapturedAt(s, evs, n - 1, img);
    } else {
      assert pre.imageSrc == Some(img);
      CapturedImageWasGated(s, init);
      var i :| CapturedAt(s, init, i, img);
      assert init[..i] == evs[..i];
      assert CapturedAt(s, evs, i, img);
    }
  }

  /**
   * From mount, as long as ticks only follow the model load, neither a face
   * flag nor a captured image can exist before the models are loaded.
   */
  lemma {:induction false} NothingBeforeModelsLoad(evs: seq<Event>)
    requires TicksFollowLoad(evs)
    ensures Run(Initial, evs).faceDetected ==> Run(Initial, evs).modelsLoaded
    ensures Run(Initial, evs).imageSrc.Some? ==> Run(Initial, evs).modelsLoaded
    decreases |evs|
  {
    if evs != [] {
      var n := |evs|;
      var init := evs[..n - 1];
      assert TicksFollowLoad(init) by {
        forall i | 0 <= i < |init| && init[i].Tick?
          ensures ModelsLoaded in init[..i]
        {
          assert evs[i] == init[i] && evs[..i] == init[..i];
        }
      }
      NothingBeforeModelsLoad(init);
      if evs[n - 1].Tick? {
        ModelsLoadedMonotonic(Initial, init);
      }
    }
  }

  /** The call at index `k` is a `play` event on which the handler starts the detection loop. */
  predicate LoopStartsAt(evs: seq<Event>, k: int)
  {
    0 <= k < |evs| && evs[k].Play? && OnVideoPlay(evs[k].video, evs[k].canvasPresent).StartLoop?
  }

  /**
   * The camera effect acquires a stream after the render that follows the
   * first `m` calls from mount (`m == 0` is the mount itself).
   */
  predicate CameraStartsAt(evs: seq<Event>, m: int)
  {
    0 <= m <= |evs|
    && CameraStartRequested(if m == 0 then None else Some(Run(Initial, evs[..m - 1])), Run(Initial, evs[..m]))
  }

  /** Ticks only come from a timer that a `play` event started: the interval is set nowhere else. */
  predicate TicksFollowLoopStart(evs: seq<Event>)
  {
    forall i :: 0 <= i < |evs| && evs[i].Tick? ==> exists k :: 0 <= k < i && LoopStartsAt(evs, k)
  }

  /** The video only plays a stream that the camera effect acquired earlier. */
  predicate LoopStartsFollowCameraStart(evs: seq<Event>)
  {
    forall k :: 0 <= k < |evs| && LoopStartsAt(evs, k) ==> exists m :: 0 <= m <= k && CameraStartsAt(evs, m)
  }

  /**
   * The ordering `TicksFollowLoad` holds of every run from mount in which the
   * timer is started by the `play` handler's readiness gate and the video plays
   * only a stream acquired by the camera effect: each tick comes after a
   * completed model load.
   */
  lemma TicksFollowLoadFromLifecycle(evs: seq<Event>)
    requires TicksFollowLoopStart(evs) && LoopStartsFollowCameraStart(evs)
    ensures TicksFollowLoad(evs)
  {
    forall i | 0 <= i < |evs| && evs[i].Tick?
      ensures ModelsLoaded in evs[..i]
    {
      var k :| 0 <= k < i && LoopStartsAt(evs, k);
      var m :| 0 <= m <= k && CameraStartsAt(evs, m);
      ModelsLoadedMonotonic(Initial, evs[..m]);
      assert ModelsLoaded in evs[..m];
      assert evs[..m] == evs[..i][..m];
    }
  }

  /**
   * Under the same lifecycle, a face flag or a captured image is only ever seen
   * once the models are loaded. What keeps the capture gate shut before that is
   * the camera gate: a camera start needs `modelsLoaded`, and the flag is never
   * lowered again.
   */
  lemma NoCaptureBeforeModelsLoad(evs: seq<Event>)
    requires TicksFollowLoopStart(evs) && LoopStartsFollowCameraStart(evs)
    ensures Run(Initial, evs).faceDetected ==> Run(Initial, evs).modelsLoaded
    ensures Run(Initial, evs).imageSrc.Some? ==> Run(Initial, evs).modelsLoaded
  {
    TicksFollowLoadFromLifecycle(evs);
    NothingBeforeModelsLoad(evs);
  }

  /** A `play` event that finds the video not fully ready starts nothing; one that finds it ready does. */
  lemma LoopStartNeedsReadyVideo(evs: seq<Event>, k: nat)
    requires k < |evs| && evs[k].Play?
    ensures LoopStartsAt(evs, k) <==>
      evs[k].video.Some? && evs[k].canvasPresent && evs[k].video.value.readyState == HaveEnoughData
  {
  }

  /** Completion of the model load while no image is held makes the camera effect acquire a stream. */
  lemma LoadStartsCamera(s: GateState)
    requires !s.modelsLoaded && s.imageSrc.None?
    ensures CameraStartRequested(Some(s), AfterLoad(s))
  {
  }

  /** Retaking from a still image while the models are loaded makes the camera effect acquire a new stream. */
  lemma RetakeRestartsCamera(s: GateState)
    requires s.modelsLoaded && s.imageSrc.Some?
    ensures CameraStartRequested(Some(s), AfterRetake(s))
    ensures Render(AfterRetake(s)) == LiveView(false)
  {
  }

  /** A detection tick never restarts the camera: neither effect dependency moves. */
  lemma TickNeverRestartsCamera(s: GateState, count: nat)
    ensures !CameraStartRequested(Some(s), AfterTick(s, count))
  {
  }

  /** A successful capture leaves the live view for the still, and the camera is not started. */
  lemma CaptureShowsStill(s: GateState, v: Video, dataUrl: string)
    requires s.faceDetected && s.imageSrc.None?
    ensures Render(Step(s, Take(Some(v), true, dataUrl))) == StillView(Image(v.videoWidth, v.videoHeight, dataUrl))
    ensures !ShouldStartCamera(Step(s, Take(Some(v), true, dataUrl)))
  {
  }

  /**
   * Models load, the first tick sees one face: the capture button is enabled,
   * and capturing shows the still.
   */
  lemma ScenarioFaceThenCapture(v: Video, dataUrl: string)
    ensures Render(Run(Initial, [ModelsLoaded, Tick(1)])) == LiveView(true)
    ensures Render(Run(Initial, [ModelsLoaded, Tick(1), Take(Some(v), true, dataUrl)]))
      == StillView(Image(v.videoWidth, v.videoHeight, dataUrl))
  {
    assert [ModelsLoaded, Tick(1), Take(Some(v), true, dataUrl)][..2] == [ModelsLoaded, Tick(1)];
    assert [ModelsLoaded, Tick(1)][..1] == [ModelsLoaded];
  }

  /** Models load, the tick sees no face: capturing alerts and no image is held. */
  lemma ScenarioNoFaceAlerts(v: Video, dataUrl: string)
    ensures AfterTake(Run(Initial, [ModelsLoaded, Tick(0)]), Some(v), true, dataUrl).1
    ensures Run(Initial, [ModelsLoaded, Tick(0), Take(Some(v), true, dataUrl)]).imageSrc.None?
  {
    assert [ModelsLoaded, Tick(0), Take(Some(v), true, dataUrl)][..2] == [ModelsLoaded, Tick(0)];
    assert [ModelsLoaded, Tick(0)][..1] == [ModelsLoaded];
  }
}
