# Goose photo booth — a Dafny model of its core

The photo booth is a single React component (`src/App.js`). It shows the
webcam mirrored, optionally through one of six pixel filters, and offers two
ways to take pictures. "Single Photo" captures one frame. "Photo Booth" runs
a 3-2-1 countdown four times, with a 2 second pause between photos, and then
shows the four photos as a 2 x 2 grid that can be downloaded as one PNG.

This project models four parts of that component and proves properties of
each:

- **The filter engine.** `applyFilterToContext` rewrites a frame's RGBA
  buffer (a `Uint8ClampedArray`) in place. The modules are `Uint8Clamped`,
  `PointFilters`, `BoxBlur` and `FilterEngine`. Each branch is a method
  over an `array<Byte>`, with the loops of the source. Each method is proved
  equal to a specification function of the old buffer, and the filters'
  properties are proved about those functions. Every store into the buffer
  goes through ECMAScript's ToUint8Clamp (section 7.1.12 of ECMA-262):
  clamp, then round half to even. That conversion is modelled exactly, on
  the rational value the branch computes. The decimal coefficients are
  written as thousandths.
- **The capture session.** The handlers `takePhoto`,
  `startPhotoBoothSession`, `startCountdown`, `capturePhotoBoothPhoto` and
  `retakePhotos`, with their interval and timeouts, are in the module
  `CaptureSession`. A `Session` class has the state variables as fields.
  Each of its methods is specified by a transition function on a
  `SessionState` value. The browser timers become events: a live interval
  firing, or a pending timeout elapsing. The JSX guards that decide which
  buttons are on screen say which events can happen. Under them, an
  invariant (`Coherent`) is proved to hold in every reachable state.
- **The live preview effect.** The module `LivePreview` models the effect
  that starts the filtered preview loop or cancels its frame request.
- **The grid download.** The module `GridLayout` models the layout of
  `downloadGrid` and the moment it exports the PNG.

Modules: `Optional`, `Arithmetic`, `Uint8Clamped`, `PointFilters`,
`BoxBlur`, `FilterEngine`, `CaptureSession`, `LivePreview`, `GridLayout`.

## Model

| member | source | states |
|---|---|---|
| Uint8Clamped.ToUint8Clamp | src/App.js:127-129 | a value stored into the pixel buffer becomes the byte within one half of it (a tie goes to the even byte); 0 at or below 0, 255 at or above 255 |
| Uint8Clamped.StoresBytesExactly | src/App.js:85-87 | storing a value that is already a byte keeps it unchanged |
| Uint8Clamped.Monotone | src/App.js:96-98 | storing a larger value never gives a smaller byte |
| Uint8Clamped.RoundsBetween | src/App.js:84-87 | a value between two bytes is stored as a byte between them |
| Uint8Clamped.MeanOf49 | src/App.js:127-129 | the stored mean sum / 49 of a 7 x 7 window is exactly (sum + 24) / 49: it never lands on a tie |
| PointFilters.ContrastChannel | src/App.js:135-139 | a contrast channel is 0 up to 64, 255 from 192, and 2c - 128 in between |
| PointFilters.ContrastMonotone | src/App.js:137-139 | contrast never turns a darker channel into a brighter one |
| PointFilters.PointFiltered | src/App.js:83-150 | a per-pixel filter keeps the buffer's length |
| PointFilters.PointFilteredAppend | src/App.js:83-150 | filtering two pieces of the buffer gives the two filtered pieces: each pixel is filtered on its own |
| PointFilters.PointFilteredPixel | src/App.js:83-150 | pixel p of the output is pixel p of the input recoloured; its alpha byte is kept and no other pixel is read |
| PointFilters.InvertTwice | src/App.js:102-108 | inverting twice restores the buffer |
| PointFilters.GrayBetweenChannels | src/App.js:84-85 | the gray value lies between the darkest and the brightest channel of the pixel |
| PointFilters.GrayOfGray | src/App.js:84-87 | a pixel that is already gray keeps its value |
| PointFilters.GrayscaleEqualChannels | src/App.js:84-87 | after grayscale, red, green and blue of every pixel are equal |
| PointFilters.GrayscaleIdempotent | src/App.js:82-89 | grayscale applied twice gives the result of applying it once |
| PointFilters.SepiaIsWarm | src/App.js:93-98 | after sepia, red >= green >= blue in every pixel |
| PointFilters.GooseBlends | src/App.js:147-149 | for any pixel, the goose tint never reaches the 255 cap, and each channel ends up between its old value and the accent colour (102, 126, 234) |
| PointFilters.ApplyGrayscale | src/App.js:82-89 | the buffer becomes its grayscale image, pixel by pixel |
| PointFilters.ApplySepia | src/App.js:91-100 | the buffer becomes its sepia image; each pixel's r, g, b are read before any is written |
| PointFilters.ApplyInvert | src/App.js:102-108 | the buffer becomes its inverse, pixel by pixel |
| PointFilters.ApplyContrast | src/App.js:134-141 | the buffer becomes its contrast-stretched image, pixel by pixel |
| PointFilters.ApplyGoose | src/App.js:143-151 | the buffer becomes its goose-tinted image, pixel by pixel |
| BoxBlur.Blurred | src/App.js:110-132 | the blur keeps the buffer's length |
| BoxBlur.BlurredAtPixel | src/App.js:126-129 | byte c of pixel q of the blurred buffer is that byte's blurred value |
| BoxBlur.BlurredAt | src/App.js:114-129 | a colour byte of a pixel at least 3 from every edge holds its 7 x 7 window's mean, rounded half up; border pixels and every alpha byte are unchanged |
| BoxBlur.RowSumBounds | src/App.js:118-122 | a window row whose samples lie in [lo, hi] sums to between n * lo and n * hi |
| BoxBlur.BoxSumBounds | src/App.js:117-125 | the first m rows of such a window sum to between 7m * lo and 7m * hi |
| BoxBlur.WindowSumBounds | src/App.js:117-125 | the whole window sums to between 49 * lo and 49 * hi |
| BoxBlur.BlurStaysInWindowRange | src/App.js:114-129 | a blurred byte lies between the minimum and the maximum of its window |
| BoxBlur.FlatImageUnchanged | src/App.js:110-132 | the blur leaves a frame of a single colour unchanged |
| BoxBlur.SmallImageUnchanged | src/App.js:114-115 | a frame with no pixel at least 3 from every edge is unchanged |
| BoxBlur.SumWindow | src/App.js:116-125 | the dy/dx loops read only the snapshot, at in-range indices, and return the window's three channel sums and a count of 49 |
| BoxBlur.ApplyBlur | src/App.js:110-132 | the buffer becomes its blurred image, computed from a snapshot and not from the partly blurred buffer |
| FilterEngine.FilterOf | src/App.js:81-155 | the case the switch selects for an id; only a menu id other than "none" selects a branch |
| FilterEngine.IdOf | src/App.js:21-29 | every filter's case label is a menu id other than "none" |
| FilterEngine.FilterIdRoundTrip | src/App.js:81-155 | an id selects a filter exactly when it is that filter's case label |
| FilterEngine.MenuSelectsFilters | src/App.js:21-29 | of the menu ids, exactly "none" selects no filter |
| FilterEngine.NoneKeepsBuffer | src/App.js:153-155 | "none", and any id without a case, leave the buffer as it was |
| FilterEngine.Filtered | src/App.js:77-157 | whatever the id, the buffer keeps its length |
| FilterEngine.FilterKeepsAlpha | src/App.js:77-157 | whatever the id, every pixel's alpha byte is kept |
| FilterEngine.ApplyFilterToContext | src/App.js:77-157 | the switch leaves the buffer filtered by the branch the id selects |
| CaptureSession.Session.constructor | src/App.js:9-19 | a new session has no photos, no countdown, no timers, and is not in booth or grid mode |
| CaptureSession.Session.TakePhoto | src/App.js:230-236 | a successful capture becomes the only photo and sets photoTaken; a failed one changes nothing |
| CaptureSession.Session.StartPhotoBoothSession | src/App.js:238-243 | enters booth mode with no photos and index 0, then starts the countdown |
| CaptureSession.Session.StartCountdown | src/App.js:245-257 | the countdown reads 3; a fresh interval is started and held in countdownTimerRef |
| CaptureSession.Session.Tick | src/App.js:247-256 | at 1 the interval in the ref is cleared, one capture is attempted and the countdown empties; otherwise it counts down by one |
| CaptureSession.Session.CapturePhotoBoothPhoto | src/App.js:259-278 | a successful capture is appended; below four photos a timeout is scheduled, at four booth mode ends and the grid shows; a failed capture changes nothing |
| CaptureSession.Session.DelayElapsed | src/App.js:266-269 | the timeout sets the photo index to the photo count it captured and starts a countdown |
| CaptureSession.Session.RetakePhotos | src/App.js:280-287 | back to the camera view with no photos; the timers are not touched |
| CaptureSession.InitialCoherent | src/App.js:9-19 | the initial state satisfies the session invariant and shows the camera buttons |
| CaptureSession.StepKeepsCoherent | src/App.js:230-287 | every event the screen allows keeps the invariant: photo counts, booth sub-phase, live timers |
| CaptureSession.RunKeepsCoherent | src/App.js:230-287 | after any sequence of allowed events the invariant holds and there are at most four photos |
| CaptureSession.CountdownRunsDown | src/App.js:245-257 | successive ticks show 3, 2, 1; the third clears the interval, attempts exactly one capture and empties the countdown |
| CaptureSession.CaptureAppends | src/App.js:259-278 | a booth capture appends exactly its photo, or nothing on failure, and schedules at most one timeout |
| CaptureSession.FailedCaptureStalls | src/App.js:249-261 | a failed capture on the last tick leaves the booth with no timer pending and no button enabled |
| CaptureSession.RetakeLeavesTimeoutPending | src/App.js:280-287 | retakePhotos cancels no timer: a pending timeout would still start a countdown after it |
| LivePreview.LiveFilterRuns | src/App.js:50 | the guard of the preview effect; whenever it holds for a menu id, the frames go through a real filter branch and never the default case |
| LivePreview.PreviewRunsThroughBooth | src/App.js:49-55 | during a booth run the effect's condition holds exactly when there is a stream and a filter |
| LivePreview.PreviewStopsOnPhoto | src/App.js:49-55 | a successful single photo turns the effect's condition off |
| LivePreview.PreviewStopsWithGrid | src/App.js:49-55 | the capture of the fourth booth photo shows the grid and turns the effect's condition off |
| LivePreview.PreviewResumesAfterRetake | src/App.js:49-55 | after a retake the effect's condition holds exactly when there is a stream and a filter |
| LivePreview.EffectRan | src/App.js:49-55 | the effect as written: when its condition is false it cancels the request in the ref, which stops at most one loop, the newest, and keeps the older ones |
| LivePreview.EffectAddsLoop | src/App.js:49-55 | each run of the effect with its condition true starts one more drawFrame loop and stops none |
| LivePreview.StaleLoopOutlivesPhoto | src/App.js:49-55 | sepia, then invert, then a photo: the sepia loop is still running |
| LivePreview.EffectRanCancelling | src/App.js:49-55 | with the cancel done first, one run of the effect leaves one loop with the current filter, or none |
| LivePreview.AtMostOneLoop | src/App.js:49-55 | with the cancel done first, at most one loop ever runs, and it runs exactly when the condition holds |
| GridLayout.CanvasSize | src/App.js:295-301 | the grid canvas is 860 x 760 |
| GridLayout.CellRect | src/App.js:323-328 | every photo is drawn 400 x 300 |
| GridLayout.CellsDisjoint | src/App.js:323-328 | the cells of two different photos never overlap |
| GridLayout.CellOnCanvas | src/App.js:300-326 | a photo's cell lies on the canvas exactly when its index is below 4 |
| GridLayout.CellBelowHeader | src/App.js:326 | every cell starts below the 100 pixel header, one padding lower |
| GridLayout.BadgeInsideCell | src/App.js:332-336 | the 30 x 30 badge lies inside its cell, the number's anchor lies inside the badge, and the numbers run 1 to 4 |
| GridLayout.DownloadGrid | src/App.js:320-347 | the export happens exactly when there are photos, and it holds the photos decoded up to and including the last index |
| GridLayout.ExportCompleteIffLastDecodedLast | src/App.js:339-344 | the export holds every photo exactly when the last index finishes decoding last |
| GridLayout.ExportCanMissPhotos | src/App.js:339-344 | decoding in the order 3, 0, 1, 2 exports a strip that holds photo 4 alone |
| GridLayout.DownloadGridWhenAllDrawn | src/App.js:320-347 | exporting once all photos are drawn always exports every photo |

## Left out

- Webcam access through `getUserMedia` and its error message (src/App.js:57-75) are browser I/O. `stream` appears only as the boolean `hasStream`.
- The canvas operations are foreign APIs: drawing, the mirror flip, `getImageData`/`putImageData`, `toDataURL`. The filters work on the buffer as given. A captured photo is an opaque string, and `capturePhoto` (src/App.js:199-228) is a parameter of the session methods: a photo, or None when it returns null.
- The goose watermark (src/App.js:159-167) and the grid header, texts, gradient and date (src/App.js:303-317) are drawing only.
- PointFilters.ApplyGrayscale, PointFilters.ApplySepia, PointFilters.ApplyGoose: the coefficients are exact thousandths, not IEEE doubles. The proved bytes can differ from a browser's where the double product falls within rounding error of a half.
- Real time is left out: `requestAnimationFrame`, the 1000 ms and 2000 ms durations, and React's batching of state updates. The timers are events that may fire in any order.
- A state updater that runs more than once (React strict mode) is left out. The interval callback runs inside `setCountdown`'s updater, which the model runs exactly once.
- The cleanup on unmount (src/App.js:35-45) is left out: the model has no unmount.
- applyLiveFilter's drawing (src/App.js:170-197) is left out. The preview loop appears only through the effect that starts and cancels it. A frame whose video is not ready draws nothing but still requests the next frame, so it does not change what `LivePreview` models.
- JSX rendering (src/App.js:350-530) is left out, except the guards of the buttons. Those guards are `CaptureSession.IdleControlsShown` and `CaptureSession.RetakeShown`: a camera-button event can happen only in the camera view, and retake only in the grid view or under a single photo. These guards leave out `disabled={!stream}` on the camera buttons (src/App.js:490, 498) and the error view (src/App.js:370). So the model allows more events than the screen does, and every property proved over the allowed events still holds for the app.
- Decoding in `downloadGrid` is an order of the onload handlers, one per photo. The download link mechanics are left out.
- LivePreview.EffectRan assumes that a frame passes between two runs of the effect, so that animationFrameRef holds the newest live loop's request. A second cancel before any frame has passed hits the request already cancelled and stops nothing, while the model stops one more loop.

## Findings

| source | as written | input that shows it | evidently intended | confidence | as-written member | corrected member |
|---|---|---|---|---|---|---|
| src/App.js:339-344 | the PNG is exported in the onload handler of the image with the last index | four photos whose images finish decoding in the order 3, 0, 1, 2: the export happens when only photo 4 is on the canvas | export once every photo has been drawn | not executed; medium, since small data URLs usually decode in order | GridLayout.ExportCanMissPhotos | GridLayout.DownloadGridWhenAllDrawn |
| src/App.js:49-55 | when the filter changes while the preview runs, the effect calls applyLiveFilter again without cancelling the running loop, and it later cancels only the newest loop | choose sepia, then invert, then take a photo: the sepia drawFrame loop keeps running behind the photo | one preview loop at most, and none while a photo or the grid shows | not executed; high | LivePreview.StaleLoopOutlivesPhoto | LivePreview.AtMostOneLoop |
