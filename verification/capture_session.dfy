/**
  The capture session of the photo booth: the single photo, the four-photo
  booth run with its 3-2-1 countdown and the 2 second pause between photos,
  the finished grid, and retake. The React state variables become fields of
  a Session; the browser timers become explicit events: a live interval
  firing its callback (a countdown tick) and a pending timeout elapsing.
  What the camera returns is a parameter: a photo, or None when capturePhoto
  returns null.
*/
module CaptureSession {
  import opened Optional

  /** A captured photo, the PNG data URL capturePhoto returns; the model never looks inside it. */
  type Photo = string

  /** The number of photos of a booth run. */
  const BoothSize := 4
  /** The value the countdown starts from. */
  const CountdownStart := 3

  /**
    Every piece of session state: the React state variables, the handle
    held in countdownTimerRef, the intervals that have not been cleared, the
    next handle setInterval will return, and the pending 2 second timeouts,
    each holding the value of newImages.length its closure captured.
  */
  datatype SessionState = SessionState(
    photoTaken: bool,
    capturedImages: seq<Photo>,
    isPhotoBoothMode: bool,
    countdown: Option<int>,
    currentPhotoIndex: int,
    showGrid: bool,
    countdownTimerRef: Option<nat>,
    liveIntervals: set<nat>,
    nextHandle: nat,
    pendingDelays: seq<nat>)

  /** The state when the app mounts. */
  function Initial(): SessionState {
    SessionState(false, [], false, None, 0, false, None, {}, 1, [])
  }

  /** takePhoto: a successful capture becomes the only photo; a failed one changes nothing. */
  function TookPhoto(s: SessionState, shot: Option<Photo>): SessionState {
    match shot
    case None => s
    case Some(p) => s.(capturedImages := [p], photoTaken := true)
  }

  /** startCountdown: the countdown shows 3 and a fresh interval is started and kept in countdownTimerRef. */
  function StartedCountdown(s: SessionState): SessionState {
    var h := s.nextHandle;
    s.(countdown := Some(CountdownStart), nextHandle := h + 1,
       liveIntervals := s.liveIntervals + {h}, countdownTimerRef := Some(h))
  }

  /** startPhotoBoothSession: booth mode, no photos, index 0, then the countdown starts. */
  function StartedBooth(s: SessionState): SessionState {
    StartedCountdown(s.(isPhotoBoothMode := true, capturedImages := [], currentPhotoIndex := 0))
  }

  /**
    capturePhotoBoothPhoto: a successful capture is appended; below four
    photos a 2 second timeout is scheduled, at four the booth ends and the
    grid shows. A failed capture changes nothing and schedules nothing.
  */
  function Captured(s: SessionState, shot: Option<Photo>): SessionState {
    match shot
    case None => s
    case Some(p) =>
      var newImages := s.capturedImages + [p];
      if |newImages| < BoothSize then
        s.(capturedImages := newImages, pendingDelays := s.pendingDelays + [|newImages|])
      else
        s.(capturedImages := newImages, isPhotoBoothMode := false, showGrid := true)
  }

  /** The interval held in the ref, cleared; clearInterval of null does nothing. */
  function ClearedRef(s: SessionState): set<nat> {
    match s.countdownTimerRef
    case None => s.liveIntervals
    case Some(h) => s.liveIntervals - {h}
  }

  /**
    One run of the interval callback of startCountdown: at 1 it clears the
    interval held in countdownTimerRef, attempts one booth capture and
    empties the countdown; otherwise it counts down by one (null - 1 is -1
    in JavaScript).
  */
  function Ticked(s: SessionState, shot: Option<Photo>): SessionState {
    if s.countdown == Some(1) then
      Captured(s.(liveIntervals := ClearedRef(s)), shot).(countdown := None)
    else
      s.(countdown := Some(if s.countdown.Some? then s.countdown.value - 1 else -1))
  }

  /** The k-th pending 2 second timeout fires: the photo index moves to the length it captured and a countdown starts. */
  function DelayDone(s: SessionState, k: nat): SessionState
    requires k < |s.pendingDelays|
  {
    var n := s.pendingDelays[k];
    StartedCountdown(s.(pendingDelays := s.pendingDelays[..k] + s.pendingDelays[k + 1..], currentPhotoIndex := n))
  }

  /** retakePhotos: back to the camera view; the timers are left alone. */
  function Retaken(s: SessionState): SessionState {
    s.(photoTaken := false, capturedImages := [], showGrid := false, isPhotoBoothMode := false,
       currentPhotoIndex := 0, countdown := None)
  }

  /** What can happen next: a button, a live interval firing, or a pending timeout elapsing. */
  datatype Event =
    | TakePhotoClicked(shot: Option<Photo>)
    | BoothClicked
    | IntervalFired(handle: nat, shot: Option<Photo>)
    | DelayFired(k: nat)
    | RetakeClicked

  /** The camera-view buttons ("Single Photo", "Photo Booth") are on screen. */
  predicate IdleControlsShown(s: SessionState) {
    !s.showGrid && !s.photoTaken && !s.isPhotoBoothMode
  }

  /** A retake button is on screen: in the grid view, or under a single photo. */
  predicate RetakeShown(s: SessionState) {
    s.showGrid || (s.photoTaken && |s.capturedImages| == 1)
  }

  /** Whether e can happen in s: its button is shown, its interval is live, its timeout is pending. */
  predicate Enabled(s: SessionState, e: Event) {
    match e
    case TakePhotoClicked(_) => IdleControlsShown(s)
    case BoothClicked => IdleControlsShown(s)
    case IntervalFired(h, _) => h in s.liveIntervals
    case DelayFired(k) => k < |s.pendingDelays|
    case RetakeClicked => RetakeShown(s)
  }

  /** The state after e. */
  function Step(s: SessionState, e: Event): SessionState
    requires Enabled(s, e)
  {
    match e
    case TakePhotoClicked(shot) => TookPhoto(s, shot)
    case BoothClicked => StartedBooth(s)
    case IntervalFired(_, shot) => Ticked(s, shot)
    case DelayFired(k) => DelayDone(s, k)
    case RetakeClicked => Retaken(s)
  }

  /** Handles are positive, as setInterval's are, and every one handed out so far is below nextHandle. */
  predicate HandlesIssued(s: SessionState) {
    0 < s.nextHandle &&
    (forall h :: h in s.liveIntervals ==> 0 < h < s.nextHandle) &&
    (s.countdownTimerRef.Some? ==> 0 < s.countdownTimerRef.value < s.nextHandle)
  }

  /**
    The states a user can reach through the buttons on screen. Out of the
    booth no timer is pending and the countdown is empty; a single photo is
    one image; the grid is four. In the booth, fewer than four photos are
    taken and exactly one of three things holds: a countdown runs on the
    one live interval, which is the one in countdownTimerRef; a 2 second
    timeout is pending for the next photo; or the last capture failed and
    nothing is pending.
  */
  predicate Coherent(s: SessionState) {
    HandlesIssued(s) &&
    if !s.isPhotoBoothMode then
      s.liveIntervals == {} && s.pendingDelays == [] && s.countdown == None &&
      !(s.photoTaken && s.showGrid) &&
      (s.photoTaken ==> |s.capturedImages| == 1) &&
      (s.showGrid ==> |s.capturedImages| == BoothSize) &&
      (!s.photoTaken && !s.showGrid ==> s.capturedImages == [])
    else
      !s.photoTaken && !s.showGrid && |s.capturedImages| < BoothSize &&
      (Counting(s) || Pausing(s) || Stalled(s))
  }

  /** In the booth, a countdown is running for photo currentPhotoIndex + 1. */
  predicate Counting(s: SessionState) {
    s.countdownTimerRef.Some? && s.liveIntervals == {s.countdownTimerRef.value} &&
    s.countdown.Some? && 1 <= s.countdown.value <= CountdownStart &&
    s.pendingDelays == [] && s.currentPhotoIndex == |s.capturedImages|
  }

  /** In the booth, between photos: one timeout is pending, carrying the number of photos so far. */
  predicate Pausing(s: SessionState) {
    s.liveIntervals == {} && s.countdown == None && 0 < |s.capturedImages| &&
    s.pendingDelays == [|s.capturedImages|] && s.currentPhotoIndex == |s.capturedImages| - 1
  }

  /** In the booth, after a failed capture: nothing is pending. */
  predicate Stalled(s: SessionState) {
    s.liveIntervals == {} && s.countdown == None && s.pendingDelays == []
  }

  /** The app starts in a coherent state. */
  lemma InitialCoherent()
    ensures Coherent(Initial()) && IdleControlsShown(Initial())
  {
  }

  /** Every event the screen allows keeps the session coherent. */
  lemma StepKeepsCoherent(s: SessionState, e: Event)
    requires Coherent(s) && Enabled(s, e)
    ensures Coherent(Step(s, e))
  {
    match e
    case TakePhotoClicked(shot) =>
    case BoothClicked =>
    case IntervalFired(h, shot) =>
      assert Counting(s);
      var t := s.(liveIntervals := ClearedRef(s));
      if s.countdown == Some(1) {
        assert t.liveIntervals == {};
        match shot
        case None =>
        case Some(p) =>
          assert |t.capturedImages + [p]| == |s.capturedImages| + 1;
      }
    case DelayFired(k) =>
      assert Pausing(s) && k == 0;
      assert s.pendingDelays[..k] + s.pendingDelays[k + 1..] == [];
    case RetakeClicked =>
  }

  /** The state after the events es, one after the other, each enabled when it happens. */
  function Run(s: SessionState, es: seq<Event>): SessionState
    requires Runnable(s, es)
    decreases |es|
  {
    if es == [] then s else Run(Step(s, es[0]), es[1..])
  }

  /** Whether each of the events es is enabled when its turn comes. */
  predicate Runnable(s: SessionState, es: seq<Event>)
    decreases |es|
  {
    es == [] || (Enabled(s, es[0]) && Runnable(Step(s, es[0]), es[1..]))
  }

  /**
    Whatever the user does through the screen, the session stays coherent;
    in particular a booth run never holds more than four photos.
  */
  lemma {:induction false} RunKeepsCoherent(s: SessionState, es: seq<Event>)
    requires Coherent(s) && Runnable(s, es)
    ensures Coherent(Run(s, es)) && |Run(s, es).capturedImages| <= BoothSize
    decreases |es|
  {
    if es != [] {
      StepKeepsCoherent(s, es[0]);
      RunKeepsCoherent(Step(s, es[0]), es[1..]);
    }
  }

  /**
    The countdown shows 3, 2, 1 on successive ticks of the interval it
    started; the third tick clears that interval, attempts exactly one
    capture and empties the countdown.
  */
  lemma CountdownRunsDown(s: SessionState, first: Option<Photo>, second: Option<Photo>, shot: Option<Photo>)
    ensures var h := s.nextHandle;
      var s0 := StartedCountdown(s);
      var s1 := Ticked(s0, first);
      var s2 := Ticked(s1, second);
      var s3 := Ticked(s2, shot);
      s0.countdown == Some(3) && h in s0.liveIntervals &&
      s1.countdown == Some(2) && s2.countdown == Some(1) &&
      s3.countdown == None && h !in s3.liveIntervals &&
      s3 == Captured(s2.(liveIntervals := s2.liveIntervals - {h}), shot).(countdown := None)
  {
  }

  /** A successful booth capture appends exactly that photo; a failed one leaves the photos alone. */
  lemma CaptureAppends(s: SessionState, shot: Option<Photo>)
    ensures Captured(s, shot).capturedImages ==
      if shot.Some? then s.capturedImages + [shot.value] else s.capturedImages
    ensures |Captured(s, shot).pendingDelays| <= |s.pendingDelays| + 1
  {
  }

  /**
    A failed capture during a booth run leaves the session stuck: no timer
    is pending and neither the camera buttons nor a retake button is on
    screen, so no event is enabled.
  */
  lemma FailedCaptureStalls(s: SessionState, e: Event)
    requires Coherent(s) && s.isPhotoBoothMode && Counting(s) && s.countdown == Some(1)
    ensures var t := Ticked(s, None);
      t.isPhotoBoothMode && Stalled(t) && !Enabled(t, e)
  {
    var t := Ticked(s, None);
    assert t.liveIntervals == {};
  }

  /**
    retakePhotos cancels no timer. The screen offers no retake button during
    a booth run, so StepKeepsCoherent covers every retake a user can make;
    were retakePhotos called during the pause between booth photos, the
    timeout would stay pending, and when it fired a countdown would start
    outside the booth, for photo two of a session that holds none.
  */
  lemma RetakeLeavesTimeoutPending(p: Photo)
    ensures var s0 := StartedBooth(Initial());
      var s3 := Ticked(Ticked(Ticked(s0, None), None), Some(p));
      var s4 := Retaken(s3);
      var s5 := DelayDone(s4, 0);
      Pausing(s3) && |s4.pendingDelays| == 1 && !s5.isPhotoBoothMode &&
      s5.countdown == Some(3) && s5.currentPhotoIndex == 1 && s5.capturedImages == [] && !Coherent(s5)
  {
  }

  /** The React state of the photo booth and its timers. */
  class Session {
    var photoTaken: bool
    var capturedImages: seq<Photo>
    var isPhotoBoothMode: bool
    var countdown: Option<int>
    var currentPhotoIndex: int
    var showGrid: bool
    var countdownTimerRef: Option<nat>
    var liveIntervals: set<nat>
    var nextHandle: nat
    var pendingDelays: seq<nat>

    /** All of the fields, as a value. */
    function State(): SessionState
      reads this
    {
      SessionState(photoTaken, capturedImages, isPhotoBoothMode, countdown, currentPhotoIndex,
                   showGrid, countdownTimerRef, liveIntervals, nextHandle, pendingDelays)
    }

    /** The initial values of the useState calls and refs. */
    constructor ()
      ensures State() == Initial()
    {
      photoTaken := false;
      capturedImages := [];
      isPhotoBoothMode := false;
      countdown := None;
      currentPhotoIndex := 0;
      showGrid := false;
      countdownTimerRef := None;
      liveIntervals := {};
      nextHandle := 1;
      pendingDelays := [];
    }

    /** takePhoto, with shot the result of capturePhoto. */
    method TakePhoto(shot: Option<Photo>)
      modifies this
      ensures State() == TookPhoto(old(State()), shot)
    {
      if shot.Some? {
        capturedImages := [shot.value];
        photoTaken := true;
      }
    }

    /** startPhotoBoothSession. */
    method StartPhotoBoothSession()
      modifies this
      ensures State() == StartedBooth(old(State()))
    {
      isPhotoBoothMode := true;
      capturedImages := [];
      currentPhotoIndex := 0;
      StartCountdown();
    }

    /** startCountdown: setInterval hands out the next handle. */
    method StartCountdown()
      modifies this
      ensures State() == StartedCountdown(old(State()))
    {
      countdown := Some(CountdownStart);
      var handle := nextHandle;
      nextHandle := nextHandle + 1;
      liveIntervals := liveIntervals + {handle};
      countdownTimerRef := Some(handle);
    }

    /** The interval callback of startCountdown, with shot the result of the capture it may attempt. */
    method Tick(shot: Option<Photo>)
      modifies this
      ensures State() == Ticked(old(State()), shot)
    {
      if countdown == Some(1) {
        if countdownTimerRef.Some? {
          liveIntervals := liveIntervals - {countdownTimerRef.value};
        }
        CapturePhotoBoothPhoto(shot);
        countdown := None;
      } else {
        countdown := Some(if countdown.Some? then countdown.value - 1 else -1);
      }
    }

    /** capturePhotoBoothPhoto, with shot the result of capturePhoto. */
    method CapturePhotoBoothPhoto(shot: Option<Photo>)
      modifies this
      ensures State() == Captured(old(State()), shot)
    {
      if shot.Some? {
        var newImages := capturedImages + [shot.value];
        if |newImages| < BoothSize {
          pendingDelays := pendingDelays + [|newImages|];
        } else {
          isPhotoBoothMode := false;
          showGrid := true;
        }
        capturedImages := newImages;
      }
    }

    /** The k-th pending 2 second timeout of capturePhotoBoothPhoto fires. */
    method DelayElapsed(k: nat)
      requires k < |pendingDelays|
      modifies this
      ensures State() == DelayDone(old(State()), k)
    {
      var n := pendingDelays[k];
      pendingDelays := pendingDelays[..k] + pendingDelays[k + 1..];
      currentPhotoIndex := n;
      StartCountdown();
    }

    /** retakePhotos. */
    method RetakePhotos()
      modifies this
      ensures State() == Retaken(old(State()))
    {
      photoTaken := false;
      capturedImages := [];
      showGrid := false;
      isPhotoBoothMode := false;
      currentPhotoIndex := 0;
      countdown := None;
    }
  }
}
