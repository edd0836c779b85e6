/**
 The state of the sorting-hat component as a value, the effect of every event
 on it, and what holds of the states the user interface can reach.

 Active reveal timers are part of the state: `timers` lists, per interval that
 has been started and not cleared, the house index its callback captured.
 */
module SortingState {
  import opened Hash
  import opened HouseTable

  datatype Option<+T> = None | Some(value: T)

  /** A JavaScript string, as its UTF-16 code units. */
  type Text = seq<CodeUnit>

  /** JavaScript truthiness of a `string | null`: null and "" are both falsy. */
  predicate Truthy(o: Option<Text>)
  {
    o.Some? && o.value != []
  }

  datatype CropUnit = Px | Percent

  /** A crop rectangle as the crop widget reports it. */
  datatype Crop = Crop(unit: CropUnit, x: int, y: int, width: int, height: int)

  /** A crop rectangle in pixels, as `onComplete` reports it. */
  type PixelCrop = c: Crop | c.unit == Px witness Crop(Px, 0, 0, 0, 0)

  /** The crop the component starts with: a 100 by 100 pixel square at the origin. */
  const DefaultCrop: Crop := Crop(Px, 0, 0, 100, 100)

  /** The canvas getCroppedImg draws on: its size and the crop rectangle it copies. */
  datatype Canvas = Canvas(width: int, height: int, region: PixelCrop)

  /** Index of the last sorting message. */
  const LastMessage: int := |SortingMessages| - 1

  datatype Snapshot = Snapshot(
    selectedImage: Option<Text>,
    crop: Crop,
    completedCrop: Option<PixelCrop>,
    croppedImage: Option<Text>,
    isSorting: bool,
    messageIndex: int,
    selectedHouse: Option<string>,
    timers: seq<nat>,
    pendingReads: nat)

  /** What every state satisfies, whatever the order of events. */
  predicate Inv(s: Snapshot)
  {
    && -1 <= s.messageIndex <= LastMessage
    && (forall i :: 0 <= i < |s.timers| ==> s.timers[i] < |Houses|)
    && (s.selectedHouse.Some? ==> s.selectedHouse.value in Houses)
  }

  /** The state of a freshly mounted component. */
  function Initial(): (s: Snapshot)
    ensures Inv(s) && UiInv(s)
    ensures !Truthy(s.selectedImage) && s.timers == []
  {
    Snapshot(None, DefaultCrop, None, None, false, -1, None, [], 0)
  }

  /** handleImageUpload itself: when a file was picked, a FileReader read of it starts. */
  function ReadStarted(s: Snapshot, picked: bool): Snapshot
  {
    if picked then s.(pendingReads := s.pendingReads + 1) else s
  }

  /** The FileReader `onload` body of handleImageUpload: a new image resets the
      sorting, but leaves the crop and every running interval alone. */
  function Uploaded(s: Snapshot, url: Text): Snapshot
  {
    s.(selectedImage := Some(url), croppedImage := None, isSorting := false,
       messageIndex := -1, selectedHouse := None)
  }

  /** One of the pending reads finishes with the data URL url and runs its `onload`. */
  function ReadFinished(s: Snapshot, url: Text): Snapshot
  {
    if s.pendingReads == 0 then s
    else Uploaded(s, url).(pendingReads := s.pendingReads - 1)
  }

  /** One of the pending reads fails. The component sets no `onerror` handler, so
      the read is only no longer pending. */
  function ReadAborted(s: Snapshot): Snapshot
  {
    if s.pendingReads == 0 then s else s.(pendingReads := s.pendingReads - 1)
  }

  /** The crop widget's `onChange`. */
  function CropChanged(s: Snapshot, c: Crop): Snapshot
  {
    s.(crop := c)
  }

  /** The crop widget's `onComplete`. */
  function CropCompleted(s: Snapshot, c: PixelCrop): Snapshot
  {
    s.(completedCrop := Some(c))
  }

  /** The image's `onLoad`: without a completed crop, the current crop becomes one, in pixels. */
  function ImageLoaded(s: Snapshot): Snapshot
  {
    if s.completedCrop.None? then s.(completedCrop := Some(s.crop.(unit := Px))) else s
  }

  /** getCroppedImg: nothing happens without the image element, a completed crop
      or a drawing context; otherwise a canvas of the crop's size is encoded. */
  function Cropped(s: Snapshot, imageReady: bool, contextReady: bool, encode: Canvas -> Text): Snapshot
  {
    if !imageReady || s.completedCrop.None? || !contextReady then s
    else
      var c := s.completedCrop.value;
      s.(croppedImage := Some(encode(Canvas(c.width, c.height, c))))
  }

  /** startSorting: without a cropped image nothing happens; otherwise the house is
      fixed from the cropped image and a new interval starts. */
  function Started(s: Snapshot): Snapshot
  {
    if !Truthy(s.croppedImage) then s
    else
      var houseIndex := HouseIndex(HashOf(s.croppedImage.value));
      s.(isSorting := true, messageIndex := 0, timers := s.timers + [houseIndex])
  }

  /** The k-th running interval fires: below the last message it advances the
      message; at the last message it clears itself and reveals its house. */
  function Ticked(s: Snapshot, k: nat): Snapshot
    requires Inv(s)
  {
    if k >= |s.timers| then s
    else if s.messageIndex >= LastMessage then
      s.(selectedHouse := Some(Houses[s.timers[k]]), timers := s.timers[..k] + s.timers[k + 1..])
    else
      s.(messageIndex := s.messageIndex + 1)
  }

  /** The events the component reacts to. */
  datatype Event =
    | ChooseFile(picked: bool)
    | ReadLoaded(url: Text)
    | ReadFailed
    | ChangeCrop(c: Crop)
    | CompleteCrop(pc: PixelCrop)
    | ImageLoad
    | ConfirmCrop(imageReady: bool, contextReady: bool, encode: Canvas -> Text)
    | StartSorting
    | Tick(k: nat)

  function Apply(s: Snapshot, e: Event): Snapshot
    requires Inv(s)
  {
    match e
    case ChooseFile(picked) => ReadStarted(s, picked)
    case ReadLoaded(url) => ReadFinished(s, url)
    case ReadFailed => ReadAborted(s)
    case ChangeCrop(c) => CropChanged(s, c)
    case CompleteCrop(c) => CropCompleted(s, c)
    case ImageLoad => ImageLoaded(s)
    case ConfirmCrop(ready, ctx, encode) => Cropped(s, ready, ctx, encode)
    case StartSorting => Started(s)
    case Tick(k) => Ticked(s, k)
  }

  /** Every event keeps the message index within the message list, every captured
      house index within the house list, and the revealed house a house. */
  lemma ApplyPreservesInv(s: Snapshot, e: Event)
    requires Inv(s)
    ensures Inv(Apply(s, e))
  {
  }

  /** Whether the event can happen: the markup renders the file input only while
      no image is selected, the crop widget and its button only while nothing is
      cropped, the start button only on a cropped image that is not being sorted.
      A pending read can finish or fail, and a tick needs a running interval. */
  predicate Enabled(s: Snapshot, e: Event)
  {
    match e
    case ChooseFile(_) => !Truthy(s.selectedImage)
    case ReadLoaded(_) => s.pendingReads > 0
    case ReadFailed => s.pendingReads > 0
    case ChangeCrop(_) => Truthy(s.selectedImage) && !Truthy(s.croppedImage)
    case CompleteCrop(_) => Truthy(s.selectedImage) && !Truthy(s.croppedImage)
    case ImageLoad => Truthy(s.selectedImage) && !Truthy(s.croppedImage)
    case ConfirmCrop(_, _, _) => Truthy(s.selectedImage) && !Truthy(s.croppedImage)
    case StartSorting => Truthy(s.croppedImage) && !s.isSorting
    case Tick(k) => k < |s.timers|
  }

  /** What holds of the states the interface reaches while file reads do not
      overlap: reads are pending only while no image is selected; not sorting
      means idle; sorting means exactly one interval is running for the current
      cropped image, or it has finished and revealed that image's house. */
  predicate UiInv(s: Snapshot)
  {
    && Inv(s)
    && (s.pendingReads > 0 ==> !Truthy(s.selectedImage))
    && (Truthy(s.croppedImage) ==> Truthy(s.selectedImage))
    && (!s.isSorting ==> s.messageIndex == -1 && s.selectedHouse == None && s.timers == [])
    && (s.isSorting ==>
          && Truthy(s.croppedImage)
          && |s.timers| <= 1
          && (s.timers == [] ==>
                s.messageIndex == LastMessage && s.selectedHouse == Some(HouseOf(s.croppedImage.value)))
          && (s.timers != [] ==>
                && s.timers[0] == HouseIndex(HashOf(s.croppedImage.value))
                && s.selectedHouse == None
                && 0 <= s.messageIndex))
  }

  /** A read finishes while another one is still pending: two files were picked
      before the first read finished. */
  predicate LandsOverRead(s: Snapshot, e: Event)
  {
    e.ReadLoaded? && s.pendingReads >= 2
  }

  /** Every event that can happen keeps UiInv, except a read that finishes while
      another is pending: the file input is hidden once an image is selected, so
      no later read can start, and the start button is hidden while sorting, so
      no second interval is started. */
  lemma EnabledPreservesUiInv(s: Snapshot, e: Event)
    requires UiInv(s) && Enabled(s, e)
    ensures !LandsOverRead(s, e) ==> UiInv(Apply(s, e))
  {
  }

  /** The exception is real: from a state with two pending reads, the first to
      finish with a non-empty data URL leaves a read pending on a selected image. */
  lemma LandsOverReadBreaksUiInv(s: Snapshot, url: Text)
    requires UiInv(s) && s.pendingReads >= 2 && url != []
    ensures Enabled(s, ReadLoaded(url)) && LandsOverRead(s, ReadLoaded(url))
    ensures !UiInv(Apply(s, ReadLoaded(url)))
  {
  }

  /** Events in order, from a state. */
  function Run(s: Snapshot, es: seq<Event>): (r: Snapshot)
    requires Inv(s)
    ensures Inv(r)
    decreases |es|
  {
    if es == [] then s
    else
      ApplyPreservesInv(s, es[0]);
      Run(Apply(s, es[0]), es[1..])
  }

  /** Every event of es can happen when it occurs. */
  predicate AllEnabled(s: Snapshot, es: seq<Event>)
    requires Inv(s)
    decreases |es|
  {
    es == [] || (Enabled(s, es[0]) && (ApplyPreservesInv(s, es[0]); AllEnabled(Apply(s, es[0]), es[1..])))
  }

  /** Some event of es is a read finishing while another read is pending. */
  predicate ReadsOverlap(s: Snapshot, es: seq<Event>)
    requires Inv(s)
    decreases |es|
  {
    es != [] && (LandsOverRead(s, es[0]) || (ApplyPreservesInv(s, es[0]); ReadsOverlap(Apply(s, es[0]), es[1..])))
  }

  /** Any sequence of events that can happen keeps UiInv, unless two reads overlapped in it. */
  lemma {:induction false} RunPreservesUiInv(s: Snapshot, es: seq<Event>)
    requires UiInv(s) && AllEnabled(s, es)
    ensures !ReadsOverlap(s, es) ==> UiInv(Run(s, es))
    decreases |es|
  {
    if es != [] && !LandsOverRead(s, es[0]) {
      EnabledPreservesUiInv(s, es[0]);
      RunPreservesUiInv(Apply(s, es[0]), es[1..]);
    }
  }

  /** A run that passes through the given states, each produced from the one
      before by an event that can happen there. */
  lemma {:induction false} RunAlong(states: seq<Snapshot>, es: seq<Event>, i: nat)
    requires |states| == |es| + 1 && i <= |es|
    requires forall j :: 0 <= j < |states| ==> Inv(states[j])
    requires forall j :: 0 <= j < |es| ==> Enabled(states[j], es[j]) && Apply(states[j], es[j]) == states[j + 1]
    ensures AllEnabled(states[i], es[i..]) && Run(states[i], es[i..]) == states[|es|]
    ensures (forall j :: 0 <= j < |es| ==> !LandsOverRead(states[j], es[j])) ==> !ReadsOverlap(states[i], es[i..])
    decreases |es| - i
  {
    if i < |es| {
      RunAlong(states, es, i + 1);
      assert es[i..][1..] == es[i + 1..];
    }
  }

  /** Every state reached from mounting, without two reads overlapping, satisfies UiInv. */
  lemma ReachableUiInv(es: seq<Event>)
    requires AllEnabled(Initial(), es)
    ensures !ReadsOverlap(Initial(), es) ==> UiInv(Run(Initial(), es))
  {
    RunPreservesUiInv(Initial(), es);
  }

  /** The message shown under the portrait (lines 189-193), if any. */
  function ShownMessage(s: Snapshot): (m: Option<string>)
    requires Inv(s)
    ensures m.Some? <==> Truthy(s.croppedImage) && s.isSorting && s.messageIndex >= 0
    ensures m.Some? ==> m.value in SortingMessages
  {
    if Truthy(s.croppedImage) && s.isSorting && s.messageIndex >= 0
    then Some(SortingMessages[s.messageIndex])
    else None
  }

  /** The house shown with its colour class (lines 194-199), if any. */
  function ShownHouse(s: Snapshot): (h: Option<(string, string)>)
    requires Inv(s)
    ensures h.Some? ==> h.value.0 in Houses && h.value.1 == HouseColors[h.value.0]
    ensures h.Some? ==> ShownMessage(s).Some?
  {
    if ShownMessage(s).Some? && s.selectedHouse.Some? && s.selectedHouse.value != []
    then Some((s.selectedHouse.value, HouseColors[s.selectedHouse.value]))
    else None
  }

  /** In a state the interface reaches, a house is shown exactly when the reveal
      has finished, and it is the house of the cropped image on screen. */
  lemma ShownHouseIsCurrent(s: Snapshot)
    requires UiInv(s)
    ensures ShownHouse(s).Some? <==> s.isSorting && s.timers == []
    ensures ShownHouse(s).Some? ==> ShownHouse(s).value.0 == HouseOf(s.croppedImage.value)
  {
  }

  /** The state after n ticks of the first running interval (fewer if it stops). */
  function Advance(s: Snapshot, n: nat): Snapshot
    requires Inv(s)
    decreases n
  {
    if n == 0 || s.timers == [] then s
    else
      ApplyPreservesInv(s, Tick(0));
      Advance(Ticked(s, 0), n - 1)
  }

  /** From a running reveal at message i: the next ticks advance the message by
      one each until the last message, the one after that reveals the house and
      stops the interval, and nothing happens afterwards. */
  lemma {:induction false} AdvanceRunning(s: Snapshot, n: nat)
    requires UiInv(s) && s.isSorting && s.timers != []
    ensures var t := Advance(s, n);
      && UiInv(t)
      && t.croppedImage == s.croppedImage && t.isSorting
      && (s.messageIndex + n <= LastMessage ==>
            t.messageIndex == s.messageIndex + n && t.selectedHouse == None && t.timers == s.timers)
      && (s.messageIndex + n > LastMessage ==>
            t.messageIndex == LastMessage && t.timers == []
            && t.selectedHouse == Some(HouseOf(s.croppedImage.value)))
    decreases n
  {
    if n > 0 {
      var u := Ticked(s, 0);
      EnabledPreservesUiInv(s, Tick(0));
      assert Apply(s, Tick(0)) == u;
      if s.messageIndex >= LastMessage {
        assert u.timers == [];
        assert Advance(s, n) == Advance(u, n - 1) == u;
      } else {
        AdvanceRunning(u, n - 1);
      }
    }
  }

  /** Starting the reveal from the interface: ticks 1 to 3 show messages 1 to 3
      with no house; the 4th tick reveals the house of the cropped image computed
      at start and stops the interval; later ticks change nothing. */
  lemma RevealTimeline(s: Snapshot, n: nat)
    requires UiInv(s) && Enabled(s, StartSorting)
    ensures var t := Advance(Started(s), n);
      && (n <= LastMessage ==> t.messageIndex == n && t.selectedHouse == None && |t.timers| == 1)
      && (n > LastMessage ==>
            t.messageIndex == LastMessage && t.timers == []
            && t.selectedHouse == Some(HouseOf(s.croppedImage.value)))
  {
    EnabledPreservesUiInv(s, StartSorting);
    AdvanceRunning(Started(s), n);
  }

  /** As written, an upload does not stop a running interval: its next tick moves
      the message of the new, idle session from -1 to 0. */
  lemma StaleTickAfterUpload(s: Snapshot, url: Text)
    requires Inv(s) && s.timers != []
    ensures var u := Uploaded(s, url);
      && !u.isSorting && u.messageIndex == -1 && u.timers == s.timers
      && Ticked(u, 0).messageIndex == 0
  {
  }

  /** Without overlapping reads that upload cannot happen: while an interval runs
      the file input is not rendered and no read is pending. */
  lemma NoReadWhileTicking(s: Snapshot, picked: bool, url: Text)
    requires UiInv(s) && s.timers != []
    ensures !Enabled(s, ChooseFile(picked)) && !Enabled(s, ReadLoaded(url)) && !Enabled(s, ReadFailed)
  {
  }

  /** Running a + b is running a, then b. */
  lemma {:induction false} RunAppend(s: Snapshot, a: seq<Event>, b: seq<Event>)
    requires Inv(s)
    ensures Inv(Run(s, a))
    ensures Run(s, a + b) == Run(Run(s, a), b)
    ensures AllEnabled(s, a) && AllEnabled(Run(s, a), b) ==> AllEnabled(s, a + b)
    decreases |a|
  {
    if a == [] {
      assert a + b == b;
    } else {
      ApplyPreservesInv(s, a[0]);
      RunAppend(Apply(s, a[0]), a[1..], b);
      assert (a + b)[0] == a[0] && (a + b)[1..] == a[1..] + b;
    }
  }

  /** A file whose read fails, then a second file whose read succeeds. */
  const FailedThenRetry: seq<Event> := [ChooseFile(true), ReadFailed, ChooseFile(true), ReadLoaded([65])]

  /** The states of that session: none selected and none pending, one pending, the second image selected. */
  const RetryIdle: Snapshot := Initial()
  const RetryPending: Snapshot := Initial().(pendingReads := 1)
  const RetryDone: Snapshot := Initial().(selectedImage := Some([65]))

  /** Each event of that session can happen, does not land over a read, and leads to the next state. */
  lemma FailedThenRetrySteps()
    ensures Enabled(RetryIdle, ChooseFile(true)) && Apply(RetryIdle, ChooseFile(true)) == RetryPending
    ensures Enabled(RetryPending, ReadFailed) && Apply(RetryPending, ReadFailed) == RetryIdle
    ensures Enabled(RetryPending, ReadLoaded([65])) && Apply(RetryPending, ReadLoaded([65])) == RetryDone
    ensures !LandsOverRead(RetryPending, ReadLoaded([65])) && UiInv(RetryDone)
  {
  }

  /** A failed read followed by a successful one does not count as overlapping:
      the session ends with the second image selected, no read pending, and UiInv. */
  lemma FailedReadThenRetry()
    ensures AllEnabled(Initial(), FailedThenRetry) && !ReadsOverlap(Initial(), FailedThenRetry)
    ensures Run(Initial(), FailedThenRetry) == Initial().(selectedImage := Some([65]))
    ensures UiInv(Run(Initial(), FailedThenRetry))
  {
    FailedThenRetrySteps();
    var es := FailedThenRetry;
    assert es == [ChooseFile(true), ReadFailed, ChooseFile(true), ReadLoaded([65])];
    RunAlong([RetryIdle, RetryPending, RetryIdle, RetryPending, RetryDone], es, 0);
    assert es[0..] == es;
  }

  /** Two files picked before the first read finishes: the second read lands
      after sorting has started (segment 1), its interval survives and reveals
      the first image's house on the idle session (segment 2), and the next
      sorting shows that house next to the second cropped image (segment 3). */
  const LateReadSegment: seq<Event> := [
    ChooseFile(true), ChooseFile(true), ReadLoaded([65]), ImageLoad,
    ConfirmCrop(true, true, (c: Canvas) => [1]), StartSorting, ReadLoaded([66])]
  const StaleTicksSegment: seq<Event> := [Tick(0), Tick(0), Tick(0), Tick(0), Tick(0)]
  const RestartSegment: seq<Event> := [ConfirmCrop(true, true, (c: Canvas) => [2]), StartSorting]
  const OverlappingReads: seq<Event> := LateReadSegment + StaleTicksSegment + RestartSegment

  /** The state after each segment. */
  const AfterLateRead: Snapshot := Snapshot(Some([66]), DefaultCrop, Some(DefaultCrop), None, false, -1, None, [1], 0)
  const AfterStaleTicks: Snapshot := AfterLateRead.(messageIndex := 3, selectedHouse := Some(Houses[1]), timers := [])
  const AfterRestart: Snapshot := AfterStaleTicks.(croppedImage := Some([2]), isSorting := true, messageIndex := 0, timers := [2])

  lemma LateReadSegmentRuns()
    ensures AllEnabled(Initial(), LateReadSegment) && Run(Initial(), LateReadSegment) == AfterLateRead
  {
    var es := LateReadSegment;
    var s0 := Initial();
    var s1 := Apply(s0, es[0]);
    var s2 := Apply(s1, es[1]);
    var s3 := Apply(s2, es[2]);
    var s4 := Apply(s3, es[3]);
    var s5 := Apply(s4, es[4]);
    EveryHouseReachable(1);
    var s6 := Apply(s5, es[5]);
    var s7 := Apply(s6, es[6]);
    assert s7 == AfterLateRead;
    RunAlong([s0, s1, s2, s3, s4, s5, s6, s7], es, 0);
    assert es[0..] == es;
  }

  lemma StaleTicksSegmentRuns()
    ensures AllEnabled(AfterLateRead, StaleTicksSegment) && Run(AfterLateRead, StaleTicksSegment) == AfterStaleTicks
  {
    var es := StaleTicksSegment;
    var s0 := AfterLateRead;
    var s1 := Apply(s0, es[0]);
    var s2 := Apply(s1, es[1]);
    var s3 := Apply(s2, es[2]);
    var s4 := Apply(s3, es[3]);
    var s5 := Apply(s4, es[4]);
    assert s5 == AfterStaleTicks;
    RunAlong([s0, s1, s2, s3, s4, s5], es, 0);
    assert es[0..] == es;
  }

  lemma RestartSegmentRuns()
    ensures AllEnabled(AfterStaleTicks, RestartSegment) && Run(AfterStaleTicks, RestartSegment) == AfterRestart
  {
    var es := RestartSegment;
    var s0 := AfterStaleTicks;
    var s1 := Apply(s0, es[0]);
    EveryHouseReachable(2);
    var s2 := Apply(s1, es[1]);
    assert s2 == AfterRestart;
    RunAlong([s0, s1, s2], es, 0);
    assert es[0..] == es;
  }

  /** As written, overlapping reads lead to a state the interface can reach in
      which the house shown is not the house of the cropped image shown. */
  lemma OverlappingReadsShowStaleHouse()
    ensures AllEnabled(Initial(), OverlappingReads)
    ensures var t := Run(Initial(), OverlappingReads);
      && t.croppedImage == Some([2])
      && ShownHouse(t) == Some((Houses[1], HouseColors[Houses[1]]))
      && HouseOf([2]) == Houses[2] != Houses[1]
  {
    LateReadSegmentRuns();
    StaleTicksSegmentRuns();
    RestartSegmentRuns();
    RunAppend(Initial(), LateReadSegment, StaleTicksSegment);
    RunAppend(Initial(), LateReadSegment + StaleTicksSegment, RestartSegment);
    EveryHouseReachable(2);
  }
}
