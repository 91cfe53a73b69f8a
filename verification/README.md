# Hardware services: buffer protocols, parsers and arithmetic, verified

This project models the parts of the repository whose correctness is not visible from one function body,
and proves what they promise. Each module follows one source file or one half of a protocol.

**The camera buffer protocol** is the centre.

- `AdapterStates.dfy` is the fifteen-state command machine of the camera adapter, with the walk back to the initial state.
- `CameraAdapterModel.dfy` is the adapter as a value: reference counts, dispatch, recording, and the effect of every command.
- `AdapterEffects.dfy` says the same field by field and buffer by buffer: which map a command loads, what it reports, which
  count a return takes down.
- `BaseCameraAdapter.dfy` is the adapter as the object it is, with its fields updated step by step; each method is proved
  against the function that says what it does as a whole.
- `CameraRollback.dfy` is `rollbackToInitializedState` with auto-focus threads finishing at any moment.
- `FrameDispatch.dfy` is the restarting dispatch loop, whose callbacks add and remove subscribers.
- `FrameSending.dfy` is the loop around it: one dispatch per type of the frame, up to the first that is an error.
- `DisplayModel.dfy` and `ANativeWindowDisplayAdapter.dfy` are the display adapter, as a value and as an object.
- `BufferSystem.dfy` puts the camera adapter, the display, the driver and the clients into one step system, with an
  invariant over all runs.
- `StepEffects.dfy` says what each of its steps moves, and that it holds nobody up.
- `FrameSteps.dfy` shows that a step of that system is what sending a frame does to the adapter.
- `BufferOwnership.dfy` says what holds of the buffers the driver may be writing to: nobody who is due to return a preview
  frame has one, and when the driver is handed one it has already.
- `BufferWindow.dfy` is about the window, to which disabling the display gives buffers: the steps that make the driver share
  one with it, exactly, and runs without them.
- `BufferSharing.dfy` is about the video clients: the steps that make the driver share a buffer with one, exactly, and runs
  without them.
- `BufferStranding.dfy` says which steps make the driver miss a buffer, and which runs never do.
- `BufferExamples.dfy` has the runs from the start that do go wrong.

**Smaller cores.** `Nv12Resize.dfy` is the fixed-point bilinear resize; `Memtrack.dfy` the merges over sorted buffer
lists; `ThermalSeverity.dfy` and `ThermalWatcher.dfy` throttling with hysteresis and the watcher's notifications;
`InformationElements.dfy` and `RingBuffer.dfy` the wifi element parser and log buffer; `CameraAreas.dfy` the focus
and metering areas. `Wrappers.dfy` and `Bytes.dfy` hold the two types the modules share.

`dafny verify dfyconfig.toml` checks everything.

## How the code is read

- The constructor of the camera adapter leaves `mNextState` unset (camera/BaseCameraAdapter.cpp:27-62). The model starts
  it as `INTIALIZED_STATE`.
- The three USE_BUFFERS commands overwrite the error of `setState` with the answer of their hook
  (camera/BaseCameraAdapter.cpp:377-393). They can report success for a rejected command; the state is safe only
  because the next state equals the current one whenever the lock is free. `RejectedCommandReportsSuccess` says exactly
  when a rejected command reports success.
- The capture and preview-data counts live in maps of booleans (camera/inc/BaseCameraAdapter.h), so they saturate at one.
  `PictureIsReleasedOnFirstReturn` says what this means for a picture with several subscribers.
- No state accepts PREVIEW_FLUSH_BUFFERS, and no command leads to `BRACKETING_ZOOM_STATE`; both facts are proved.
- Setting the initial counts of a frame and sending it are one step with respect to subscription changes, and a frame
  has at most one of the types PREVIEW_FRAME_SYNC and SNAPSHOT_FRAME.
- A buffer is its handle: the buffer map, the gralloc map and the preview map of the source are keyed alike. A return of
  a buffer the maps do not know aborts in the source; here it is excluded by `Known`.
- Preview buffers are replaced only when a session starts. That every preview frame has come back and the driver has
  stopped by then is an assumption, which the source does not enforce. `ReturnOfEarlierSession` says what a preview
  frame does that comes back later.
- The driver is that of camera/V4LCameraAdapter/V4LCameraAdapter.cpp. It streams from `startPreview` to `stopPreview`, which
  is not the same as the state machine's states: USE_BUFFERS_IMAGE_CAPTURE stops it (1108), the picture thread takes the
  stream off and starts it again whenever it finishes (2440-2501), and a reset of the sensor takes all buffers from
  it and queues them anew (4281-4413). The model keeps whether it streams, whether it only takes itself to (after a picture
  thread has taken off the stream that another one had started), a number of picture threads, and steps for these.
- `useBuffers` clears the list of buffers that a reset reads (800, 4338), so a reset made by the picture thread, which
  starts after USE_BUFFERS_IMAGE_CAPTURE, dereferences a null pointer; in the model only a streaming driver is reset.
- Stopping the preview disables the display first and the camera only later (camera/CameraHal.cpp:3662-3686). Disabling the
  display gives the buffers of its map, among them all that the driver has, back to the window
  (camera/ANativeWindowDisplayAdapter.cpp:379-444, 791-825). `DisablingSharesExactlyIf` and `StepSharesWithWindowExactlyIf`
  say what that means for a camera that streams, `SomeRunSharesWithWindow` is such a run. `freeBuffer`, which gives
  back what is left in the map, is part of the next session's start.
- The display is enabled only for newly allocated buffers (camera/CameraHal.cpp:1582-1776), so one that runs has given nothing
  back. A frame that is posted after the hand-back goes to a window that has its buffer already; without a window the post
  dereferences a null pointer.
- The hook of USE_BUFFERS_IMAGE_CAPTURE is called for a rejected command too, and then, given an array, stops the preview without
  starting a picture thread; `RejectedCaptureStopsPreview` says so.
- Whenever the driver starts it queues every buffer without a preview count; the lines of `startPreview` that would look
  at the video count are commented out (1308-1342), and the reset has none (4387-4413). So a picture taken while
  recording makes it write to buffers that the recorder has, and the recorder's return queues such a buffer again.
  `StepSharesExactlyIf` and `FillsAreFreshExactlyIf` have the exact conditions, `SomeRunSharesByPicture` the run.
  Filling the buffer again before it comes back replaces its counts; the clients that lose theirs are in `uncounted`.
- Stopping a recording does not wait for the frames the video clients still have
  (camera/AppCallbackNotifier.cpp:1741-1772). Such a frame may be returned at any later time: without a
  recording that does nothing, and during the next one it takes down a count of that recording
  (camera/AppCallbackNotifier.cpp:1774-1818). The model keeps these returns in `late`. Stopping can be safe by itself and
  still let the next preview return share a buffer; `SomeRunSharesAfterStopping` is such a run.
- A frame is sent type by type in the order of the mask bits, and the first error ends it
  (camera/BaseCameraAdapter.cpp:1196-1243). While recording a frame is a preview frame and a video frame
  (camera/V4LCameraAdapter/V4LCameraAdapter.cpp:1982-2041), so without a preview subscriber, as after
  camera/ANativeWindowDisplayAdapter.cpp:394, no video client gets it, and its video count stands.
  `RecordedFrameIsSentExactlyIf` and `StepStrandsExactlyIf` say when this happens.
- What the window does not take back when an allocation fails stays in the map of frames with the camera, whose handles are
  freed (camera/ANativeWindowDisplayAdapter.cpp:656-668, 791-855); `AllocateBuffer` says so.
- The overridable hooks other than `startVideoCapture` and `stopVideoCapture` succeed or fail as an argument says; in
  BufferSystem starting fails while the driver takes itself to stream and stopping while it does not.
- The window gives out and takes back what the arguments say; in particular a post, a dequeue and a lock may fail.
- `numBufs - undequeued` is negative if the window insists on more buffers than there are; then the loop that gives buffers
  back does nothing, and the model keeps all of them with the camera. `maxQueueableBuffers` reports it as an unsigned number.
- The bounds of the thermal lemmas: the parser enforces rising thresholds (thermal/utils/config_parser.cpp:128-143) but
  neither positive hysteresis nor release points above the next lower threshold. The lemmas about `Orderly`
  configurations need both; `LatchesExactlyIfOrderly` says that this is exactly what makes every level a latch,
  and the two lemmas beside it what goes wrong without the one or the other.
- A selected sensor that could not be read does not keep the watcher alert, even if its stored severity is not NONE
  (thermal/ThermalHelper.cpp:597-606).
- `get_bufs_size` adds up 64-bit sizes and returns an `int`; `ExactBelowTwoGigabytes` says when the number is right.
- `strtol` reads a number that is missing as zero, so `(,,,,)` is the all-zero area, which is accepted
  (camera/CameraHalUtilClasses.cpp:150-153, 240-303); `TokenIsAreaExactlyIf` says which texts are areas.
- In the resize, a crop's origin is found with the output's width, not its stride, and chroma uses the same origin as luma
  (camera/NV12_resize.c:121, 203); the model does the same.

## Model

| member | source | states |
|---|---|---|
| AdapterStates.VideoStatesAreEnteredAndLeftByVideoCommands | camera/BaseCameraAdapter.cpp:1796-2253 | In the whole table, the five VIDEO states are entered by START_VIDEO only and left by STOP_VIDEO only. |
| AdapterStates.SessionIsEnteredAndLeftByPreviewCommands | camera/BaseCameraAdapter.cpp:1796-2253 | The states after START_PREVIEW are entered by that command only and left by STOP_PREVIEW only; preview buffers are accepted in the initial state only. |
| AdapterStates.WhatIsUnderWayDeterminesState | camera/BaseCameraAdapter.cpp:1796-2253 | What is under way, of buffers, preview, recording, zooming, focusing, a loaded picture, one being taken and bracketing, determines the state. |
| AdapterStates.AcceptedExactlyIfAllowed | camera/BaseCameraAdapter.cpp:1796-2253 | For every command, the states that accept it, in terms of what is under way. |
| AdapterStates.BuffersComeAndGo | camera/BaseCameraAdapter.cpp:1796-2253 | Preview buffers come with USE_BUFFERS_PREVIEW only and go with STOP_PREVIEW only. |
| AdapterStates.ZoomingStartsAndStopsByItsCommands | camera/BaseCameraAdapter.cpp:1796-2253 | The four zooming states are entered by START_SMOOTH_ZOOM only and left by STOP_SMOOTH_ZOOM only. |
| AdapterStates.FocusingStartsAndStopsByItsCommands | camera/BaseCameraAdapter.cpp:1796-2253 | The three focusing states are entered by PERFORM_AUTOFOCUS only and left by CANCEL_AUTOFOCUS or QUERY_BUFFER_SIZE_IMAGE_CAPTURE only. |
| AdapterStates.PicturesAreTakenByTheirCommands | camera/BaseCameraAdapter.cpp:1796-2253 | The loaded, capturing and bracketing states are entered and left by the listed commands and by nothing else. |
| AdapterStates.AutoFocusStepsCollapse | camera/BaseCameraAdapter.cpp:1620-1628 | However many auto-focus threads finish in a row, only the first can change the state. |
| AdapterStates.AutoFocusStepEndsFocusing | camera/BaseCameraAdapter.cpp:1620-1628 | The auto-focus thread ends the focusing, and a picture outside a recording, and nothing else that is under way. |
| AdapterStates.ReachableExactlyIfNotBracketingZoom | camera/BaseCameraAdapter.cpp:1796-2253 | A state is reached by some command sequence if and only if it is not BRACKETING_ZOOM. |
| AdapterStates.RollbackCommandLowersRank | camera/BaseCameraAdapter.cpp:2270-2334 | The command chosen for a state is accepted there and lowers the rank, also if an auto-focus step comes between. |
| AdapterStates.AcceptedRollbackCommandLowersRank | camera/BaseCameraAdapter.cpp:2255-2334 | With any number of auto-focus steps before the read, between read and send, and after it, an accepted command has lowered the rank. |
| AdapterStates.RollbackStopsWhatIsUnderWay | camera/BaseCameraAdapter.cpp:2270-2334 | Which command the rollback sends, in terms of what is under way. |
| CameraAdapterModel.InitialCountsOfDistinct | camera/BaseCameraAdapter.cpp:359-375 | Of distinct buffers exactly the first `maxQueueable` start with count 0 and the others with 1. |
| CameraAdapterModel.ReturnFrameKeepsValid | camera/BaseCameraAdapter.cpp:260-332 | A return keeps counts non-negative, the state, and the set of known buffers. |
| CameraAdapterModel.DriverRefillsOnLastReturn | camera/BaseCameraAdapter.cpp:260-332 | Any preview, snapshot or video return takes the combined count down by one, hands the buffer to the driver exactly if the count was one, and leaves all other buffers' counts alone. |
| CameraAdapterModel.SurplusReturnIsIgnored | camera/BaseCameraAdapter.cpp:288-315 | A return without an outstanding count changes nothing and fills nothing. |
| CameraAdapterModel.InitialCountsGrow | camera/BaseCameraAdapter.cpp:1366-1421 | Counting one more frame type of the mask, in mask order, gives the counts of the larger mask. |
| CameraAdapterModel.InitialCountsKeepValid | camera/BaseCameraAdapter.cpp:1366-1421 | Setting a frame's initial counts keeps the adapter's invariant. |
| CameraAdapterModel.PictureIsReleasedOnFirstReturn | camera/BaseCameraAdapter.cpp:1379-1397 | However many subscribers a picture went to, its buffer is released once, on the first return. |
| CameraAdapterModel.PictureIsReleasedWhileHeldExactlyIf | camera/BaseCameraAdapter.cpp:260-332 | A picture's buffer is released while a subscriber has yet to return it if and only if it went to more than one. |
| CameraAdapterModel.ReclaimIsAReturn | camera/BaseCameraAdapter.cpp:1542-1572 | What stopping a recording does to a buffer is one video return if it has a count, and nothing otherwise. |
| CameraAdapterModel.CommandMovesByTheTable | camera/BaseCameraAdapter.cpp:334-996 | After any command the state is the old one or the table's, the latter only with success; a rejected command changes nothing. |
| CameraAdapterModel.RejectedCommandReportsSuccess | camera/BaseCameraAdapter.cpp:346-475 | A command the table rejects reports success in exactly the listed cases. |
| CameraAdapterModel.FlushIsAlwaysRejected | camera/BaseCameraAdapter.cpp:1796-2253 | PREVIEW_FLUSH_BUFFERS is an invalid operation in every state and changes nothing. |
| CameraAdapterModel.AcceptedVideoCommandSucceeds | camera/BaseCameraAdapter.cpp:1511-1572 | Once accepted a video command cannot fail, because the recording flag agrees with the state. |
| CameraAdapterModel.CommandKeepsValid | camera/BaseCameraAdapter.cpp:334-996 | Every command keeps: recording exactly in the VIDEO states, video counts for exactly the preview buffers while recording and for none otherwise, no negative count. |
| CameraAdapterModel.FinishAutoFocusKeepsValid | camera/BaseCameraAdapter.cpp:1620-1628 | The auto-focus thread's step keeps the same invariant. |
| CameraAdapterModel.EventKeepsValid | camera/BaseCameraAdapter.cpp:334-996 | Every event, command, thread step, return or new frame, keeps the same invariant. |
| CameraAdapterModel.RunEvents | camera/BaseCameraAdapter.cpp:334-996 | The invariant holds after every run of events. |
| AdapterEffects.AcceptedBuffersAreCounted | camera/BaseCameraAdapter.cpp:346-501 | An accepted use-buffers command replaces the map of its own kind: its keys are the listed buffers, the count of distinct ones is zero below `maxQueueable` and one from there on, and the other maps stay. |
| AdapterEffects.CommandReports | camera/BaseCameraAdapter.cpp:334-996 | The status of every command, from what is under way, the arguments and the hook. |
| AdapterEffects.StateMovesExactlyIfAccepted | camera/BaseCameraAdapter.cpp:334-996 | The state moves if and only if the command is accepted and reports success. |
| AdapterEffects.StopVideoFills | camera/BaseCameraAdapter.cpp:1542-1572 | Stopping a recording fills once each buffer with one video count and no preview count, and no other. |
| AdapterEffects.StartVideoCounts | camera/BaseCameraAdapter.cpp:1511-1540 | Starting one gives exactly the preview buffers a video count, of zero. |
| AdapterEffects.CommandTouchesNothingElse | camera/BaseCameraAdapter.cpp:334-996 | No command changes a map, the recording flag or what was filled, but for those whose work it is, when accepted. |
| AdapterEffects.CaptureReturn | camera/BaseCameraAdapter.cpp:260-332 | A picture or raw return clears the mark of its buffer, and releases it if it was marked. |
| AdapterEffects.DataReturn | camera/BaseCameraAdapter.cpp:260-332 | A preview-data return likewise. |
| AdapterEffects.PreviewFrameReturn | camera/BaseCameraAdapter.cpp:260-332 | A preview or snapshot return takes the preview count down by one unless it is zero, and fills the buffer if that was its last count of both kinds. |
| AdapterEffects.VideoFrameReturn | camera/BaseCameraAdapter.cpp:260-332 | A video return likewise; without a recording it does nothing. |
| AdapterEffects.ReturnsTakeDownCount | camera/BaseCameraAdapter.cpp:260-332 | Any number of returns takes a count down to zero and no further, and gives the buffer up once, when it gets there, to the driver only if no other count stands for it. |
| AdapterEffects.FrameIsCountedBySubscribers | camera/BaseCameraAdapter.cpp:1366-1421 | A new preview, snapshot or video frame is counted once per subscriber of its list. |
| AdapterEffects.FrameIsMarkedBySubscribers | camera/BaseCameraAdapter.cpp:1366-1421 | A new frame of the other counted types is marked if its own list has a subscriber. |
| AdapterEffects.NothingElseIsCounted | camera/BaseCameraAdapter.cpp:1366-1421 | Other types, and buffers that no map knows, are not counted. |
| CameraRollback.TurnLowersRankOrFails | camera/BaseCameraAdapter.cpp:2255-2334 | A turn of the rollback loop that reports success has lowered the rank; one that fails has not reached the initial state. |
| CameraRollback.UndisturbedTurn | camera/BaseCameraAdapter.cpp:2270-2334 | Undisturbed, a turn takes the state exactly one rank down, and fails without change in exactly the three LOADED states. |
| CameraRollback.RollbackLoop | camera/BaseCameraAdapter.cpp:2255-2268 | The loop ends within `Rank` turns whatever threads and hooks do, succeeds exactly if it ends in the initial state, and undisturbed gets there in at most three commands from all but the LOADED states. |
| CameraAdapter.BaseCameraAdapter.constructor | camera/BaseCameraAdapter.cpp:27-62 | The adapter starts idle, in the initial state, without buffers. |
| CameraAdapter.BaseCameraAdapter.SetState | camera/BaseCameraAdapter.cpp:1796-2253 | Takes the lock in every case; the next state is the table's if the operation is valid and unchanged if not. What the table is, the lemmas on what is under way say. |
| CameraAdapter.BaseCameraAdapter.CommitState | camera/BaseCameraAdapter.cpp:2338-2351 | Moves to the next state and releases the lock. |
| CameraAdapter.BaseCameraAdapter.RollbackState | camera/BaseCameraAdapter.cpp:2353-2366 | Forgets the next state and releases the lock. |
| CameraAdapter.BaseCameraAdapter.BeginAutoFocusThread | camera/BaseCameraAdapter.cpp:1620-1628 | Leaves the lock free and the state where a valid or ignored CANCEL_AUTOFOCUS leads. |
| CameraAdapter.BaseCameraAdapter.SetInitFrameRefCount | camera/BaseCameraAdapter.cpp:1366-1421 | The loop over the mask bits sets the counts of all types of the mask, and of no other, to the numbers of subscribers. |
| CameraAdapter.BaseCameraAdapter.LoadCounts | camera/BaseCameraAdapter.cpp:359-375 | The two loops install 0 for the queueable buffers and 1 for the rest. |
| CameraAdapter.BaseCameraAdapter.ReturnFrame | camera/BaseCameraAdapter.cpp:260-332 | Does what one return means for the counts and the driver, and keeps the invariant. |
| CameraAdapter.BaseCameraAdapter.SendToSubscribers | camera/BaseCameraAdapter.cpp:1249-1364 | Exactly which errors are reported, and they leave every count; otherwise a complete call log, and the count goes down by one for every call that returns at once and for every count without a call, but not below zero. |
| CameraAdapter.BaseCameraAdapter.SendFrameToSubscribers | camera/BaseCameraAdapter.cpp:1185-1247 | One dispatch per type of the mask, in bit order, with a complete call log each; the first error ends the loop, and the counts of that type and of all later ones stand. |
| CameraAdapter.BaseCameraAdapter.SendNextType | camera/BaseCameraAdapter.cpp:1196-1243 | The six types with subscriber lists are dispatched, the four others are passed over without an error. |
| FrameSending.TypesAreSentInBitOrder | camera/BaseCameraAdapter.cpp:1196-1243 | Exactly the types of the mask are sent, each once, in the order of their bits. |
| FrameSending.DispatchTakesDownCount | camera/BaseCameraAdapter.cpp:1249-1364 | A dispatch of c counts with n calls, m of which return at once, leaves max(0, c - m - max(0, c - n)), and gives the buffer up exactly if that is zero. |
| FrameSending.AllCallersReturned | camera/BaseCameraAdapter.cpp:1249-1364 | Once every client that was called has returned the frame, its count is zero, and the driver has been given the buffer once, unless another count stands for it. |
| FrameSending.ErrorEndsSending | camera/BaseCameraAdapter.cpp:1239-1241 | After an error, further types of the mask make no difference. |
| FrameSending.RecordedFrameIsSentExactlyIf | camera/BaseCameraAdapter.cpp:1196-1281 | A frame with the mask of a recording, counted for its subscribers, reaches anybody at all if and only if it has a preview subscriber and the frame queue is not empty; otherwise its counts stand. |
| CameraAdapter.BaseCameraAdapter.StartVideoCapture | camera/BaseCameraAdapter.cpp:1511-1540 | Installs a video count of zero for every preview buffer. |
| CameraAdapter.BaseCameraAdapter.StopVideoCapture | camera/BaseCameraAdapter.cpp:1542-1572 | Returns each buffer that is still counted once, whatever order the map is walked in, and clears the video counts. |
| CameraAdapter.BaseCameraAdapter.SendCommand | camera/BaseCameraAdapter.cpp:334-996 | Lock taken and released in balance, next state equal to the state again, and state, counts and status as the command's function says. |
| CameraAdapter.BaseCameraAdapter.SendUseBuffers | camera/BaseCameraAdapter.cpp:346-475 | Counts are installed only if the state machine accepts, in the map that AcceptedBuffersAreCounted names; the hook is called, and its status reported, in any case. |
| CameraAdapter.BaseCameraAdapter.RollbackToPreviousState | camera/BaseCameraAdapter.cpp:2270-2334 | Sends the command for the state it read, with auto-focus threads finishing before it arrives. |
| CameraAdapter.BaseCameraAdapter.RollbackToInitializedState | camera/BaseCameraAdapter.cpp:2255-2268 | Terminates and does what the loop function describes, in as many turns. |
| FrameDispatch.Deliver | camera/BaseCameraAdapter.cpp:1296-1344 | The restarting loop ends, each call goes to the first subscriber still owed the frame, and in the end nobody on the list is. |
| FrameDispatch.CallsAreDistinctSnapshotMembers | camera/BaseCameraAdapter.cpp:1296-1344 | Nobody is called twice, and nobody who joined late. |
| FrameDispatch.SurvivorsAreCalled | camera/BaseCameraAdapter.cpp:1296-1344 | Every snapshot subscriber with callback and cookie that is still there at the end was called. |
| FrameDispatch.CalledWhileSubscribed | camera/BaseCameraAdapter.cpp:1307-1336 | Each call goes to a cookie of the start that has a callback on the list at that moment and was not called before; everybody before it on the list was called already, joined late or cannot be called. |
| FrameDispatch.CallLogIsUnique | camera/BaseCameraAdapter.cpp:1296-1344 | How the list changes determines the calls. |
| FrameDispatch.SteadyListIsCalledInOrder | camera/BaseCameraAdapter.cpp:1296-1344 | If no callback changes the list, everybody on it with a callback and a cookie is called once, in its order. |
| FrameDispatch.EveryCountIsCalledOrReturned | camera/BaseCameraAdapter.cpp:1296-1361 | Calls and immediate returns add up to the larger of calls and initial count, and to the count when it was the list's size. |
| DisplayModel.AllocateIsValid | camera/ANativeWindowDisplayAdapter.cpp:582-648 | After allocation every buffer has one owner, the camera has the queueable number of them, and the books balance. |
| DisplayModel.AllocateByIndex | camera/ANativeWindowDisplayAdapter.cpp:582-648 | Of distinct buffers the last ones, as many as the window insists on, are with the window and the others with the camera; with all of them if it insists on more than there are. |
| DisplayModel.PostFrameKeepsValid | camera/ANativeWindowDisplayAdapter.cpp:998-1126 | Posting a frame keeps single ownership and the balance of frames and requests. |
| DisplayModel.ServeQueueKeepsValid | camera/ANativeWindowDisplayAdapter.cpp:906-929 | Serving, refusing or dropping a request keeps them too. |
| DisplayModel.TurnByFields | camera/ANativeWindowDisplayAdapter.cpp:885-929 | A turn takes one request unless the display was never started, and moves a buffer only while it runs: to the camera, or to nobody if it cannot be locked. |
| DisplayModel.GiveBackKeepsValid | camera/ANativeWindowDisplayAdapter.cpp:791-825 | Giving buffers back, all, some or none, keeps them too. |
| DisplayModel.WindowShare | camera/ANativeWindowDisplayAdapter.cpp:582-648 | How many buffers the window is due to give back: its minimum plus requests pending or dropped, less the exceptions. |
| DisplayModel.WindowCanServe | camera/ANativeWindowDisplayAdapter.cpp:1128-1150 | A pending request finds a buffer above the window's minimum exactly if requests and refusals outnumber failed posts and leftover requests. |
| DisplayModel.CameraAndQueueAddUp | camera/ANativeWindowDisplayAdapter.cpp:1069-1120 | Frames with the camera plus pending requests equal the queueable number when nothing failed and the display was not disabled, and never exceed it but for leftover requests. |
| DisplayAdapter.ANativeWindowDisplayAdapter.AllocateBuffer | camera/ANativeWindowDisplayAdapter.cpp:484-676 | Succeeds exactly if the window accepts its set-up, gives all buffers and takes the surplus back, and then splits them between camera and window. A failure frees the handles and gives everything back, but for buffers the window refuses, which stay in the map. |
| DisplayAdapter.ANativeWindowDisplayAdapter.MaxQueueableBuffers | camera/ANativeWindowDisplayAdapter.cpp:735-770 | Reports the number of buffers that allocation left with the camera exactly if the window's minimum is still the same, and a wrapped number if the window insists on more buffers than there are. |
| DisplayAdapter.ANativeWindowDisplayAdapter.PostFrame | camera/ANativeWindowDisplayAdapter.cpp:998-1126 | A null buffer or missing handles are an error without effect; otherwise the buffer leaves the camera for the window, or for nobody if it is refused, one request is queued in any case, and the status is an error in exactly one case. |
| DisplayAdapter.ANativeWindowDisplayAdapter.ServeDisplayQ | camera/ANativeWindowDisplayAdapter.cpp:885-929 | One turn of the queue: one request is taken unless the display was never started, and exactly a dequeued buffer of a running display is registered with the camera and returned to the camera adapter. |
| DisplayAdapter.ANativeWindowDisplayAdapter.HandleFrameReturn | camera/ANativeWindowDisplayAdapter.cpp:1128-1198 | The buffer the window gives out is the one returned, under its own index. |
| DisplayAdapter.ANativeWindowDisplayAdapter.ReturnBuffersToWindow | camera/ANativeWindowDisplayAdapter.cpp:791-825 | Fails exactly if the window refuses one of the camera's buffers, and then leaves the map as it was although others are with the window; otherwise everything goes to the window, in any order, and the map is empty. |
| DisplayAdapter.ANativeWindowDisplayAdapter.EnableDisplay | camera/ANativeWindowDisplayAdapter.cpp:320-377 | Starts the display thread unless it runs. |
| DisplayAdapter.ANativeWindowDisplayAdapter.DisableDisplay | camera/ANativeWindowDisplayAdapter.cpp:379-444 | An enabled display is stopped and then gives its buffers back, or forgets the window; it keeps its map exactly if the window refuses a buffer, and reports success even then. |
| BufferSystem.StepKeepsSound | camera/BaseCameraAdapter.cpp:260-332 | Every step of camera, display, driver and clients keeps: each preview count is the number of holders due to return the buffer plus the counts a failed dispatch left; each video count too, less the clients that lost theirs; the driver has buffers without preview counts only, and none unless it streams; the display's books balance, whatever it has given back. |
| BufferSystem.Run | camera/V4LCameraAdapter/V4LCameraAdapter.cpp:1271-1420 | The invariant holds after every run of steps, with pictures, sensor resets, a disabled display, failed dispatches and late video returns. |
| BufferSystem.RejectedCaptureStopsPreview | camera/BaseCameraAdapter.cpp:450-501 | A rejected USE_BUFFERS_IMAGE_CAPTURE leaves the adapter as it is, reports what its hook answers, and takes all buffers from the driver unless the array of buffers is missing. |
| StepEffects.CommandStartsAndStopsDriver | camera/V4LCameraAdapter/V4LCameraAdapter.cpp:1271-1420 | Exactly which commands make the driver stream or stop, and which start a picture thread. |
| StepEffects.CommandMovesBuffers | camera/V4LCameraAdapter/V4LCameraAdapter.cpp:1308-1342 | Which buffers the driver has after a command: its own, the free ones if it has just been started, and those a stopped recording leaves without a count. |
| StepEffects.CommandKeepsClients | camera/AppCallbackNotifier.cpp:1741-1772 | Stopping a recording makes the frames of its clients late ones; no other command touches a client. |
| StepEffects.DriverMovesBuffers | camera/V4LCameraAdapter/V4LCameraAdapter.cpp:2440-2501 | What a picture's end, a sensor reset and a failing device leave with the driver; counts and clients stay. |
| StepEffects.FrameIsHandedOut | camera/BaseCameraAdapter.cpp:1185-1247 | A completed frame leaves the driver with a count per preview client, who are about to be called exactly if it can be sent and there is one. |
| StepEffects.RecordedFrameIsHandedOut | camera/BaseCameraAdapter.cpp:1185-1247 | While recording the same for the video clients; those that still had the buffer have no count any more. |
| StepEffects.PreviewClientReturns | camera/BaseCameraAdapter.cpp:260-332 | A preview client's return takes one preview count and the frame from its holder, and gives the streaming driver the buffer exactly if that was its last count. |
| StepEffects.VideoClientReturns | camera/BaseCameraAdapter.cpp:260-332 | A video client's return takes one video count likewise, unless its count has been used up. |
| StepEffects.LateReturnTakesCount | camera/AppCallbackNotifier.cpp:1774-1818 | A late return takes a count of the running recording if there is one of its buffer, and does nothing otherwise. |
| StepEffects.DisplayReturns | camera/ANativeWindowDisplayAdapter.cpp:1128-1198 | The display's turn takes a preview count exactly if the display runs, has a request and gets a buffer it can lock. |
| StepEffects.SessionCountsBuffers | camera/BaseCameraAdapter.cpp:355-393 | A new session counts one for each buffer with the window and zero for each with the camera, and the two agree on which these are. |
| StepEffects.VideoHoldersCanMove | camera/AppCallbackNotifier.cpp:1774-1818 | Whoever has a video frame, of an earlier recording, too, can return it. |
| FrameSteps.CompletedFrameIsSent | camera/BaseCameraAdapter.cpp:1185-1364 | For any subscriber lists, sending a completed frame leaves the adapter as the step for a completed frame does, followed by the returns made at once. |
| BufferOwnership.DriverNeverSharesWithPreview | camera/BaseCameraAdapter.cpp:260-332 | After any run from the start, a buffer queued with the driver is not with a preview client or a preview dispatch, and is with the window if and only if the display has given it back. |
| BufferOwnership.DriverHoldsFreeBuffers | camera/V4LCameraAdapter/V4LCameraAdapter.cpp:1308-1342 | In every sound state the driver's buffers have no preview holder and are or were in the display's map; each of their video clients is counted or has lost its count. |
| BufferOwnership.ReturnOfEarlierSession | camera/BaseCameraAdapter.cpp:260-332 | A preview frame of an earlier session takes down a count of the present one, and gives the driver a buffer somebody has if and only if that was its only count. |
| BufferOwnership.FillsAreFreshExactlyIf | camera/BaseCameraAdapter.cpp:288-330 | Every single fill in any step hands over a buffer whose last count was just taken down; the driver has the buffer already if and only if it was queued in spite of its one video count and that is the count taken down. |
| BufferSharing.StepSharesExactlyIf | camera/BaseCameraAdapter.cpp:260-332 | As long as the driver shares nothing with a video client, a step changes that if and only if it is one of the listed ones: stopping a recording, starting or restarting the driver, a preview return or a video return, each with its condition on the counts. |
| BufferSharing.RestartSharesExactlyIf | camera/V4LCameraAdapter/V4LCameraAdapter.cpp:2495-2501 | A picture's end or a sensor reset shares a buffer if and only if the driver is restarted and a video client has one without a preview count. |
| BufferSharing.StopVideoSharesExactlyIf | camera/BaseCameraAdapter.cpp:1542-1572 | Stopping a recording does so at once if and only if the driver streams and a video client has a buffer whose counts are one video count and no preview count. |
| BufferSharing.RunsShareExactlyIf | camera/BaseCameraAdapter.cpp:260-332 | A run shares nothing with a video client at any moment if and only if none of its steps is one of these. |
| BufferSharing.PatientRunsShareNothing | camera/AppCallbackNotifier.cpp:1741-1772 | If no recording is stopped and no preview restarted while a video client has a frame, no run ever makes the driver share a buffer with a client, nor with the window but for what the display has given back. |
| BufferWindow.StepSharesWithWindowExactlyIf | camera/ANativeWindowDisplayAdapter.cpp:379-444 | As long as the driver shares nothing with the window, a step changes that if and only if it gives back a buffer the driver has, takes down the last count of a buffer given back while the driver streams, or makes the driver queue a free one. |
| BufferWindow.DisablingSharesExactlyIf | camera/CameraHal.cpp:3649-3693 | The first hand-back of a session, if the window takes everything, shares a buffer if and only if the driver has any. |
| BufferWindow.RunsShareWithWindowExactlyIf | camera/ANativeWindowDisplayAdapter.cpp:379-444 | A run shares nothing with the window at any moment if and only if none of its steps is one of these. |
| BufferWindow.TidyRunsKeepWindowApart | camera/ANativeWindowDisplayAdapter.cpp:379-444 | If buffers are given back only when the driver has stopped, and it does not start again before the next session, then after any run the window has none of the driver's buffers. |
| BufferWindow.TidyPatientRunsShareNothing | camera/BaseCameraAdapter.cpp:260-332 | After a run that is patient as well, nobody has any of them. |
| BufferStranding.StepStrandsExactlyIf | camera/BaseCameraAdapter.cpp:1185-1281 | A step leaves a buffer that nobody has outside the streaming driver, or a count that nobody takes down, if and only if it stops a recording one of whose frames is counted for several video clients only, completes a frame that has no preview subscriber or finds the frame queue empty, or is a failing sensor reset. |
| BufferStranding.RunsWithoutStrandingAreComplete | camera/BaseCameraAdapter.cpp:1542-1572 | Along a run without these steps, no buffer that nobody has is ever missing from the streaming driver. |
| BufferStranding.CompleteMeansNoBufferIsMissed | camera/BaseCameraAdapter.cpp:296-330 | In such a state the driver, if it streams, has every buffer without preview and video holders. |
| BufferStranding.OneRecorderStrandsNothing | camera/BaseCameraAdapter.cpp:1185-1281 | With at most one video client, a preview subscriber and a full frame queue for every frame, and no failing reset, no run strands a buffer, however often recording starts and stops and pictures are taken. |
| BufferStranding.IdleBuffersAreAllWithDriver | camera/ANativeWindowDisplayAdapter.cpp:1069-1120 | Once every frame is back, a streaming driver has exactly the buffers that are or were in the display's map: all queueable ones but one per pending or dropped request. |
| BufferExamples.VideoOnlyFrameIsMissed | camera/BaseCameraAdapter.cpp:1239-1281 | While recording, a frame with one video and no preview subscriber: nobody has the buffer, its video count is one, and the streaming driver misses it. |
| BufferExamples.UnqueuedFrameIsMissed | camera/BaseCameraAdapter.cpp:1259-1271 | The same with an empty frame queue, for both counts. |
| BufferExamples.SomeRunMissesAFrame | camera/BaseCameraAdapter.cpp:1185-1247 | A run from the start gets there. |
| BufferExamples.SomeRunSharesByStopping | camera/BaseCameraAdapter.cpp:1554-1562 | A run from the start ends with a buffer with the driver and with a video client, because the recording was stopped. |
| BufferExamples.SomeRunSharesByLateReturn | camera/AppCallbackNotifier.cpp:1774-1818 | A run from the start ends with a buffer with the driver and with the recorder of the running recording, because a frame of the one before was returned late. |
| BufferExamples.SomeRunSharesAfterStopping | camera/BaseCameraAdapter.cpp:1542-1572 | A run from the start stops a recording when that shares nothing and nothing is late, and the next preview return gives the driver a buffer that a video client has. |
| BufferExamples.SomeRunSharesByPicture | camera/V4LCameraAdapter/V4LCameraAdapter.cpp:1108-1342 | A run from the start takes a picture while recording, stops no recording, and ends with a buffer with the driver and the recorder, whose return queues it a second time. |
| BufferExamples.SomeRunSharesWithWindow | camera/CameraHal.cpp:3649-3693 | A run from the start disables the display of a streaming camera and ends with a buffer with the driver and the window. |
| BufferExamples.ReturnAfterDisablingShares | camera/BaseCameraAdapter.cpp:288-330 | Even if the driver has no buffer then, the next client to return a frame gives it one that the window has. |
| Nv12Resize.Row | camera/inc/NV12_resize.h:82-106 | Each of the 64 rows of the weight table is the product of the two linear weights, in the table's order. |
| Nv12Resize.BlendIsBilinear | camera/NV12_resize.c:151-189 | The table's blend is interpolation along both rows and then between them, rounded down once. |
| Nv12Resize.BlendStaysBetween | camera/NV12_resize.c:151-189 | A blended byte lies between its darkest and its brightest neighbour. |
| Nv12Resize.BlendIsMonotone | camera/NV12_resize.c:151-189 | Brighter neighbours never give a darker byte. |
| Nv12Resize.PositionInEighths | camera/NV12_resize.c:127-144 | Whole and fractional position together are the exact position rounded down to an eighth. |
| Nv12Resize.LumaStaysInside | camera/NV12_resize.c:117-189 | For every output size, luma reads stay inside the picture if and only if it is at least two pixels wide. |
| Nv12Resize.ChromaStaysInside | camera/NV12_resize.c:205-299 | For all sizes, chroma reads stay inside the half-size plane if and only if an inequality between the two sizes holds. |
| Nv12Resize.ChromaLimitIsFirstMisfit | camera/NV12_resize.c:205-299 | The smallest output size for which they do not is twice the input less two if the input is even, the input less one if odd. |
| Nv12Resize.SomeLargerSizeFits | camera/NV12_resize.c:205-299 | Beyond it they may stay inside again: from 4 pixels to 7, but not to 6 or 8. |
| Nv12Resize.SameSizeIsNotACopy | camera/NV12_resize.c:70-80 | At equal sizes every position but the first falls short of its own pixel. |
| Nv12Resize.RampIsSampledExactly | camera/NV12_resize.c:123-189 | If the bytes at origin, stride and step hold a linear ramp, the result is the ramp at the output position, rounded down once. |
| Nv12Resize.ConstantStaysConstant | camera/NV12_resize.c:123-189 | A plane of one colour stays that colour. |
| Nv12Resize.PositionIsExact | camera/NV12_resize.c:127-144 | No 32-bit product and no 16-bit position wraps. |
| Nv12Resize.BlendBytes | camera/NV12_resize.c:146-190 | Accumulating in 16 bits and truncating to a byte loses nothing. |
| Nv12Resize.ResizeLuma | camera/NV12_resize.c:121-196 | The walking pointer writes, at each row and column, exactly the bilinear sample, and no other byte changes. |
| Nv12Resize.ResizeChroma | camera/NV12_resize.c:201-309 | The two interleaved pointers write exactly the samples of the two colours, and no other byte changes. |
| Nv12Resize.ResizeFrame | camera/NV12_resize.c:43-318 | Fails exactly for missing planes, sizes that are zero in 16 bits, no stride or other formats, and then writes nothing; otherwise every byte of the whole output, or of the given rectangle, in both planes is the sample of the input that its row and column call for, and no other byte changes. |
| Nv12Resize.ChromaRowsStayAligned | camera/NV12_resize.c:300-309 | Colour rows keep the distance of the output's rows if and only if the target is an even number of pixels wide. |
| Nv12Resize.ExactPlanesHoldAllReads | camera/NV12_resize.c:117-299 | Planes just as large as the input's dimensions say contain every byte read, for every output size that fits on the chroma plane. |
| Memtrack.BufferTable.constructor | memtrack/memtrack_aml.c:74-79 | The table starts empty with the given capacity. |
| Memtrack.BufferTable.Add | memtrack/memtrack_aml.c:87-94 | The new buffer comes last, all others stay, and a full table doubles. |
| Memtrack.GetBufsSize | memtrack/memtrack_aml.c:118-134 | The merge returns the total size, as an int, of exactly the table entries whose id is on the list. |
| Memtrack.ExactBelowTwoGigabytes | memtrack/memtrack_aml.c:118-134 | The int is the true total if and only if that is less than two gigabytes. |
| Memtrack.NarrowingKeepsLowBits | memtrack/memtrack_aml.c:118-134 | Otherwise it is the number of the same low 32 bits. |
| Memtrack.RemoveShared | memtrack/memtrack_aml.c:363-385 | The in-place loop leaves the merge difference in the prefix and everything behind the list untouched. |
| Memtrack.DifferenceOfSorted | memtrack/memtrack_aml.c:366-384 | On sorted lists that difference is the difference of multisets. |
| Memtrack.DifferenceOfIncreasing | memtrack/memtrack_aml.c:366-384 | On lists without repeats it is the set difference, and again increasing. |
| Memtrack.ChargeProcess | memtrack/memtrack_aml.c:362-386 | A process is charged exactly for the buffers its list has more often than the compositor's; without repeats, for those the compositor does not have. |
| Memtrack.ChargeAndSharedMakeTheWhole | memtrack/memtrack_aml.c:352-386 | Charged and shared bytes add up to all the bytes of the process. |
| Memtrack.OneBufferCostsItsSize | memtrack/memtrack_aml.c:118-134 | One buffer costs the size of its table entry, and nothing without one. |
| Memtrack.CostsAddUp | memtrack/memtrack_aml.c:118-134 | Disjoint sets of buffers cost what they cost each. |
| ThermalSeverity.GetSeverityFromThresholds | thermal/ThermalHelper.cpp:352-391 | The one downward loop computes both severities, the cold one as the hot one of negated numbers. |
| ThermalSeverity.HighestReachedIsHighest | thermal/ThermalHelper.cpp:364-370 | The raw severity is the highest level whose threshold is reached. |
| ThermalSeverity.SeverityInNumbers | thermal/ThermalHelper.cpp:352-391 | In numbers: while the reading reaches the previous severity or a higher one, the severity is the highest level whose threshold is at or below the reading; otherwise the highest whose release point is below it. |
| ThermalSeverity.NextIsBetween | thermal/ThermalHelper.cpp:383-388 | The new severity is at least the raw one and at most the larger of raw and previous. |
| ThermalSeverity.EveryLevelIsALatch | thermal/ThermalHelper.cpp:352-391 | The severity is at or above a level if and only if the reading reaches it, or it was there and the reading is above the release point. |
| ThermalSeverity.NextIsMonotone | thermal/ThermalHelper.cpp:352-391 | Monotone in the reading and in the previous severity. |
| ThermalSeverity.NextIsIdempotent | thermal/ThermalHelper.cpp:352-391 | A repeated reading changes nothing. |
| ThermalSeverity.SeverityIsKeptExactlyInBand | thermal/ThermalHelper.cpp:352-391 | A severity is kept if and only if the reading is at its threshold or above its release point, and below every higher threshold. |
| ThermalSeverity.RunsLatchEveryLevel | thermal/ThermalHelper.cpp:352-391 | After any run of readings each level agrees with its own one-bit latch. |
| ThermalSeverity.RunsInBandKeepTheSeverity | thermal/ThermalHelper.cpp:352-391 | No run of readings inside the band changes the severity. |
| ThermalSeverity.CrossingsCostTravel | thermal/ThermalHelper.cpp:352-391 | Along any run every further crossing of a level costs the readings a travel of that level's whole hysteresis. |
| ThermalSeverity.NeverBelowTheReadingExactlyIfPositive | thermal/ThermalHelper.cpp:372-388 | A configuration never reports less than the reading says if and only if every level with another above its threshold has positive hysteresis. |
| ThermalSeverity.NeverAboveBothExactlyIfSeparated | thermal/ThermalHelper.cpp:372-388 | A configuration never raises the severity beyond what the reading says if and only if no level is released below the threshold of a lower one. |
| ThermalSeverity.CoolingRaisesTheSeverity | thermal/ThermalHelper.cpp:352-391 | A configuration the parser accepts and a falling reading that raises LIGHT to MODERATE. |
| ThermalSeverity.LatchesExactlyIfOrderly | thermal/utils/config_parser.cpp:128-143 | Of the configurations with rising thresholds, every level is a latch in exactly those with separated levels and positive hysteresis below the top. |
| ThermalWatcher.DirectionsAreIndependent | thermal/ThermalHelper.cpp:305-326 | Through any readings the hot and the cold severity of a sensor run independently. |
| ThermalWatcher.ThrottledExactlyIfLatched | thermal/ThermalHelper.cpp:305-326 | After any readings a sensor is throttled at a level or above if and only if the hot or the cold latch of that or a higher level is set; the level itself need not be used. |
| ThermalWatcher.NeighboursDiffer | thermal/ThermalHelper.cpp:613-618 | Consecutive notifications of one sensor differ. |
| ThermalWatcher.EachIsVisitedOnce | thermal/ThermalHelper.cpp:573-629 | A sensor's new status depends on its own old status and reading only. |
| ThermalWatcher.SensorsAreReportedOnce | thermal/ThermalHelper.cpp:586-622 | One pass reports no sensor twice. |
| ThermalWatcher.CallFollowsReadings | thermal/ThermalHelper.cpp:573-629 | After a call, a monitored sensor that the events name, or any if they name none, has the status its reading leads to, and all others keep theirs. |
| ThermalWatcher.CallReportsChanges | thermal/ThermalHelper.cpp:606-622 | A report is made exactly of the sensors whose severity has changed, with the value read and the new severity. |
| ThermalWatcher.CallStaysAlert | thermal/ThermalHelper.cpp:586-622 | The call says to stay alert exactly if a monitored sensor is throttled that was not asked for in vain. |
| ThermalWatcher.TriggeredExactlyByAlerts | thermal/ThermalHelper.cpp:586-622 | The watcher stays alert if and only if some monitored sensor is throttled and was not selected and unreadable. |
| ThermalWatcher.PassKeepsAgreement | thermal/ThermalHelper.cpp:573-629 | Whatever is selected and readable, replaying the log gives the stored severities, which are the larger of hot and cold, and every notification is news. |
| ThermalWatcher.ThermalHelper.constructor | thermal/ThermalHelper.cpp:189-195 | Every sensor starts as NONE in all three fields. |
| ThermalWatcher.ThermalHelper.ReadTemperature | thermal/ThermalHelper.cpp:284-326 | Fails exactly if the file cannot be read; otherwise value, status pair and the larger severity. |
| ThermalWatcher.ThermalHelper.ThermalWatcherCallback | thermal/ThermalHelper.cpp:573-629 | Which statuses change and to what, what is reported, once each, and when the watcher stays alert, sensor by sensor from events, configuration and readings; the reports are appended to the log, and the agreement of log and statuses is kept. |
| InformationElements.ConvertElement | wifi/hidl_struct_util.cpp:534-545 | The element at the start of a blob: its identifier, its length, and each byte of its data. |
| InformationElements.ConvertBlob | wifi/hidl_struct_util.cpp:547-583 | Re-serializing the output gives a prefix of the blob, and what remains starts with no whole element; only a null pointer is an error. |
| InformationElements.ParseIsUnique | wifi/hidl_struct_util.cpp:547-583 | There is only one such output. |
| InformationElements.ParseOfSerialized | wifi/hidl_struct_util.cpp:547-583 | Parsing what any element list serializes to gives it back with nothing left over. |
| InformationElements.SerializeIsInjective | wifi/hidl_struct_util.cpp:547-583 | Different lists never serialize alike. |
| InformationElements.ParseIsMaximal | wifi/hidl_struct_util.cpp:558-575 | No list that serializes to a prefix of the blob goes further. |
| RingBuffers.RingBuffer.Append | wifi/ringbuffer.cpp:29-44 | An empty or oversized message changes nothing; after any other the buffer is the longest suffix of what it was and the message that fits. |
| RingBuffers.TotalCountsBytes | wifi/ringbuffer.cpp:29-44 | What is bounded is the number of bytes of all messages together. |
| RingBuffers.AppendsKeepLongestFittingSuffix | wifi/ringbuffer.cpp:29-44 | After any run of appends the buffer holds the longest suffix of the accepted messages that fits. |
| RingBuffers.LongestFittingSuffixIsUnique | wifi/ringbuffer.cpp:29-44 | The accepted messages and the bound determine the contents. |
| RingBuffers.NewestMessageStays | wifi/ringbuffer.cpp:38-43 | Eviction never reaches the message just added. |
| RingBuffers.AllKeptIfAllFits | wifi/ringbuffer.cpp:40-43 | Everything is kept if and only if everything fits. |
| CameraAreas.CheckArea | camera/CameraHalUtilClasses.cpp:143-191 | Accepts exactly the all-zero area and the areas inside the coordinates with positive extent and weight. |
| CameraAreas.ParseAreas | camera/CameraHalUtilClasses.cpp:193-328 | A null or empty text is an error; otherwise the caller's list grows by exactly the parsed areas, also when an error follows. |
| CameraAreas.LongestGoodPrefix | camera/CameraHalUtilClasses.cpp:227-317 | What is read is the longest run of readable items, and only a list of readable items is accepted. |
| CameraAreas.AddedAreasAreValid | camera/CameraHalUtilClasses.cpp:143-328 | For any text every area that is added is valid. |
| CameraAreas.AcceptedExactlyIfAllTokensAre | camera/CameraHalUtilClasses.cpp:227-317 | A text is accepted if and only if it has a token and every token is an area. |
| CameraAreas.NumeralIsRead | camera/CameraHalUtilClasses.cpp:240-296 | White space, at most one sign and digits are read as the number they mean, or the nearest of 32 bits, up to the first character that is no digit. |
| CameraAreas.ReadIsNumeral | camera/CameraHalUtilClasses.cpp:240-296 | Nothing else is read as a number. |
| CameraAreas.NumberThenExactlyIf | camera/CameraHalUtilClasses.cpp:240-303 | A number and its separator are read if and only if the text starts with a way to write that number, or with nothing for zero, directly followed by the separator. |
| CameraAreas.TokenIsAreaExactlyIf | camera/CameraHalUtilClasses.cpp:240-303 | A token is an area if and only if it spells left, top, right, bottom and weight, separated by commas and closed by a bracket, and they are all zero or within their bounds. |
| CameraAreas.StrtolOfDecimal | camera/CameraHalUtilClasses.cpp:240-296 | A printed number is read back to its last digit and no further. |
| CameraAreas.RoundTrip | camera/CameraHalUtilClasses.cpp:193-328 | Parsing a buffer with the terminated text of any non-empty list of valid areas gives the list back, whatever stands between two areas and behind the terminator. |
| CameraAreas.AreAreasDifferent | camera/CameraHalUtilClasses.cpp:330-350 | Two lists are the same exactly if they are equal, order included. |

## Left out

- camera/CameraHal.cpp, camera/CameraHal_Module.cpp, camera/AppCallbackNotifier.cpp, parameters and properties: plumbing; an app appears only as a client that returns each frame once.
- camera/Encoder_libjpeg.cpp, screen_source, tv_input, tb_modules, keymaster, lights, dumpstate, hdmi_cec and the other services: I/O or one-line logic.
- The converters of wifi/hidl_struct_util.cpp other than the element parser: finite tables.
- Real threads, mutexes, allocation failure, logging: steps are atomic, and each is one critical section of the source.
- The counters of frames with the display and with the encoder (`mFramesWithDisplay`, `mFramesWithEncoder`): they are only logged.
- `enableMsgType` and `disableMsgType`: the subscriber lists change as a given history says.
- The display's further error paths for a dead window (-ENODEV), after which it forgets the window.
- More than two picture threads at once, and a sensor reset by one of several.
- A USE_BUFFERS_PREVIEW that the state machine rejects calls its hook all the same; what that does to the driver's own list of buffers is not modelled. Neither is a driver that fails half-way through queueing.
- SendToSubscribers: within a callback the frame itself may be returned, and subscribers may come and go; other calls of the adapter from a callback are not modelled.
- AllocateBuffer: the map is empty at first; what an allocation does after one that left refused buffers in it is not modelled, since their indices lead into handles that are no more.
- SendFrameToSubscribers: the dispatched frame's own fields and the frame queue's contents are not modelled; whether the queue has the buffer is an argument.
- GetSeverityFromThresholds: works on real numbers; float rounding, infinities and a NaN reading are not modelled, and a hysteresis that is not a number is excluded as by the parser.
- ThermalWatcherCallback: without a registered callback notifications are lost; the model assumes there is one. The order in which the map is traversed is a fixed list.
- ResizeFrame: null structure pointers, which the source dereferences before it looks at them, are excluded; the planes are separate arrays that do not overlap; output sizes of 65536 and more, for which the 16-bit loop counters never get to the end, are excluded, and so are sizes of zero, by which the source divides.
- GetBufsSize: the tables and lists must be sorted, as the source's comment says; how they are read from debugfs is left out.
- ConvertBlob: the pointer of the result is never null.
- ParseAreas: the copy of the text is modelled by value, because the places where the tokenizer writes terminators are never seen by a caller; the text must contain a terminator, which the tokenizer relies on; `long` has 32 bits.
- Append: `sizeof` of an element is one.
