/**
  The effect that starts and stops the live filtered preview. It runs after
  every render that changes activeFilter, stream, photoTaken or showGrid:
  when the preview should run it calls applyLiveFilter, which starts a
  drawFrame loop (each frame draws the mirrored video, filters it and
  requests the next frame); otherwise it cancels the frame request held in
  animationFrameRef.
*/
module LivePreview {
  import opened Optional
  import opened CaptureSession
  import opened FilterEngine

  /**
    The condition of the effect: a stream, a filter other than "none", and
    the camera view on screen. Whenever it holds for a menu id, every frame
    goes through one of the filter branches, never the default case.
  */
  predicate LiveFilterRuns(hasStream: bool, activeFilter: string, photoTaken: bool, showGrid: bool): (runs: bool)
    ensures runs && activeFilter in FilterMenu ==> FilterOf(activeFilter).Some?
  {
    hasStream && activeFilter != "none" && !photoTaken && !showGrid
  }

  /** The condition of the effect, with photoTaken and showGrid read from a session state. */
  predicate PreviewRuns(hasStream: bool, activeFilter: string, s: SessionState) {
    LiveFilterRuns(hasStream, activeFilter, s.photoTaken, s.showGrid)
  }

  /** Throughout a booth run the effect's condition holds exactly when there is a stream and a filter. */
  lemma PreviewRunsThroughBooth(hasStream: bool, activeFilter: string, s: SessionState)
    requires Coherent(s) && s.isPhotoBoothMode
    ensures PreviewRuns(hasStream, activeFilter, s) <==> hasStream && activeFilter != "none"
  {
  }

  /** A successful single photo turns the effect's condition off. */
  lemma PreviewStopsOnPhoto(hasStream: bool, activeFilter: string, s: SessionState, p: Photo)
    ensures !PreviewRuns(hasStream, activeFilter, TookPhoto(s, Some(p)))
  {
  }

  /** The tick that takes the fourth booth photo shows the grid and so turns the effect's condition off. */
  lemma PreviewStopsWithGrid(hasStream: bool, activeFilter: string, s: SessionState, p: Photo)
    requires Coherent(s) && s.isPhotoBoothMode && s.countdown == Some(1) && |s.capturedImages| == BoothSize - 1
    ensures !PreviewRuns(hasStream, activeFilter, Ticked(s, Some(p)))
  {
  }

  /** After a retake the effect's condition holds exactly when there is a stream and a filter. */
  lemma PreviewResumesAfterRetake(hasStream: bool, activeFilter: string, s: SessionState)
    ensures PreviewRuns(hasStream, activeFilter, Retaken(s)) <==> hasStream && activeFilter != "none"
  {
  }

  /** The values the effect depends on, as one render leaves them. */
  datatype Render = Render(hasStream: bool, activeFilter: string, photoTaken: bool, showGrid: bool)

  predicate Runs(r: Render) {
    LiveFilterRuns(r.hasStream, r.activeFilter, r.photoTaken, r.showGrid)
  }

  /**
    The drawFrame loops that are running, oldest first, each given by the
    activeFilter its closure captured. The callbacks of one frame run in the
    order they were requested and each stores its own next request in
    animationFrameRef, so once a frame has passed the ref holds the request
    of the newest loop.
  */
  type Loops = seq<string>

  /**
    One run of the effect as written: start one more loop when the
    condition holds, without cancelling any; otherwise cancel the request
    in animationFrameRef, which stops the newest loop. A cancel stops at
    most one loop and never an older one.
  */
  function EffectRan(loops: Loops, r: Render): (after: Loops)
    ensures !Runs(r) ==> after <= loops && |loops| <= |after| + 1
  {
    if Runs(r) then loops + [r.activeFilter]
    else if loops != [] then loops[..|loops| - 1] else loops
  }

  /** Every render that keeps the condition true but changes the filter starts one more loop. */
  lemma EffectAddsLoop(loops: Loops, r: Render)
    requires Runs(r)
    ensures |EffectRan(loops, r)| == |loops| + 1 && loops <= EffectRan(loops, r)
  {
  }

  /**
    Choosing sepia, then invert, then taking a photo: the effect cancels the
    invert loop only, and the sepia loop keeps filtering frames behind the
    captured photo.
  */
  lemma StaleLoopOutlivesPhoto()
    ensures var l1 := EffectRan([], Render(true, "sepia", false, false));
      var l2 := EffectRan(l1, Render(true, "invert", false, false));
      var l3 := EffectRan(l2, Render(true, "invert", true, false));
      l2 == ["sepia", "invert"] && l3 == ["sepia"] && !Runs(Render(true, "invert", true, false))
  {
  }

  /** The effect as intended: cancel the running loop first, then start one when the condition holds. */
  function EffectRanCancelling(loops: Loops, r: Render): (after: Loops)
    ensures |loops| <= 1 ==> after == if Runs(r) then [r.activeFilter] else []
  {
    var kept := if loops != [] then loops[..|loops| - 1] else loops;
    if Runs(r) then kept + [r.activeFilter] else kept
  }

  /** The loops after the effect has run for each render in turn. */
  function AfterRenders(loops: Loops, rs: seq<Render>): Loops
    decreases |rs|
  {
    if rs == [] then loops else AfterRenders(EffectRanCancelling(loops, rs[0]), rs[1..])
  }

  /**
    With the cancelling effect, however the renders go, at most one loop
    ever runs: after the last render one loop with its filter when its
    condition holds, and none otherwise.
  */
  lemma {:induction false} AtMostOneLoop(loops: Loops, rs: seq<Render>)
    requires |loops| <= 1 && rs != []
    ensures AfterRenders(loops, rs) == if Runs(rs[|rs| - 1]) then [rs[|rs| - 1].activeFilter] else []
    decreases |rs|
  {
    var next := EffectRanCancelling(loops, rs[0]);
    if |rs| > 1 {
      AtMostOneLoop(next, rs[1..]);
      assert rs[1..][|rs[1..]| - 1] == rs[|rs| - 1];
    }
  }
}
