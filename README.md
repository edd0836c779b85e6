# Sorting hat: a Dafny model

The sorting hat is a single React component (`src/App.tsx`). The user uploads a
photo and crops it to a circle. The hat then hashes the cropped image's data URL
with a 31-multiplier string hash and picks one of four houses. It narrates four
messages, one per timer tick, then reveals the house.

This project models the logic under that interface:

- `Hash.dfy` (module `Hash`): `hashString` over UTF-16 code units. The loop is
  written as the source writes it: `(hash << 5) - hash + c`, then `hash |= 0`.
  It is proved equal to a left fold of `h, c => Wrap32(31 * h + c)`. The fold is
  proved equal to the exact polynomial (Horner) value reduced to signed 32 bits.
  Three inputs are pinned to their hash values.
- `HouseTable.dfy` (module `HouseTable`): the `HOUSES`, `HOUSE_COLORS` and
  `SORTING_MESSAGES` tables, and the house index `Math.abs(hash) % 4`. `Math.abs`
  works on mathematical integers, because in JavaScript `Math.abs(-2^31)` is the
  number `2^31`, with no overflow.
- `SortingState.dfy` (module `SortingState`): the component state as a value
  (`Snapshot`) and one function per handler. It also holds the user-interface
  gating (`Enabled`: which control the markup renders in which state), an
  invariant of every state the interface can reach (`UiInv`), and the reveal
  timeline.
- `App.dfy` (module `App`): class `Session`. Its fields are the component's
  `useState` variables. Each method is one handler or callback, and each is tied
  to its `SortingState` function.

Running intervals are explicit state. The field `timers` holds, for each
`setInterval` that has not been cleared, the `houseIndex` its callback captured.
`Tick(k)` is one firing of the k-th interval. File reads are explicit too.
`pendingReads` counts the `FileReader` reads that have started and not finished.
`ChooseFile` is `handleImageUpload` starting a read (lines 52-54 and 62).
`ReadLoaded(url)` is one pending read running its `onload` body (lines 55-61).
`ReadFailed` is a pending read that fails. The component sets no `onerror`
handler, so the read only stops being pending (`FailedReadThenRetry`).

Two decisions follow the code:

- **Upload does not stop a running interval.** `handleImageUpload` never calls
  `clearInterval`, so the model keeps running intervals across an upload, as the
  code does. `StaleTickAfterUpload` shows the effect: the next tick moves the new
  session's message index from -1 to 0.
- **The file input stays rendered until the first read finishes.** Line 118
  hides it only once `selectedImage` is set. So two files can be picked before
  the first read finishes, and the second `onload` can land after sorting has
  started. `EnabledPreservesUiInv`, `RunPreservesUiInv` and `ReachableUiInv`
  prove the interface invariant `UiInv` for every run unless a read finishes
  while another is pending (`LandsOverRead`, `ReadsOverlap`).
  `LandsOverReadBreaksUiInv` shows that this exception is real.
  `OverlappingReadsShowStaleHouse` gives a run the interface allows in which the
  first image's house is shown next to the second cropped image. Without
  overlapping reads no upload can happen while an interval runs
  (`NoReadWhileTicking`).
- **`startSorting` has no re-entry guard.** The only guard is in the markup,
  which hides the start button while sorting (line 179). `Started` has no guard
  either. Calling it twice starts a second interval. `Enabled(s, StartSorting)`
  expresses the markup's guard.

An upload leaves `crop` and `completedCrop` unchanged, and so does the model.

JavaScript truthiness is kept. `if (!croppedImage) return;` also returns for the
empty string, so `Truthy` treats `""` like `null`.

## Model

| member | source | states |
|---|---|---|
| Hash.Wrap32 | src/App.tsx:31 | the conversion to a 32-bit integer on line 31 (bitwise OR with 0): the result lies in the signed 32-bit range and is congruent to the input modulo 2^32 |
| Hash.StepIsTimes31 | src/App.tsx:30-31 | one loop step, `(h << 5) - h + c` converted to 32 bits, equals `Wrap32(31*h + c)`, the shift being taken modulo 2^32 |
| Hash.ShiftLeft5 | src/App.tsx:30 | `hash << 5` on a 32-bit value; no ensures of its own, `StepIsTimes31` states what it contributes to a step |
| Hash.Step | src/App.tsx:30-31 | one loop body; no ensures of its own, `StepIsTimes31` proves it equal to `Wrap32(31*h + c)` and `HashString`'s loop uses it |
| Hash.FoldAppend | src/App.tsx:29-32 | appending a code unit to the input performs exactly one more 31-step on the fold's result |
| Hash.HashAppend | src/App.tsx:29-32 | `hashString(s + [c]) == Wrap32(31 * hashString(s) + c)` |
| Hash.HashIsWrappedHorner | src/App.tsx:27-34 | the hash equals the exact polynomial value `sum c_i * 31^(n-1-i)` reduced to signed 32 bits |
| Hash.HashString | src/App.tsx:27-34 | the loop returns the left fold of the code units from 0, and 0 for the empty string |
| Hash.HashOfXYZ | src/App.tsx:27-34 | the string "XYZ" hashes to 87417 |
| HouseTable.HouseOfXYZ | src/App.tsx:98-99 | the string "XYZ" is sorted into house 1, the second entry of the house list |
| Hash.HashOfEmptyDataUrl | src/App.tsx:27-34 | the string "data:," hashes to -1338919844, a negative value |
| Hash.HashOfHelloWorld | src/App.tsx:27-34 | the string "hello world" hashes to 1794106052, after wrapping around 2^32 |
| HouseTable.TablesConsistent | src/App.tsx:5-24 | four distinct houses, each with a colour class, and four messages |
| HouseTable.Abs | src/App.tsx:98 | `Math.abs` returns the non-negative magnitude of its argument |
| HouseTable.HouseIndex | src/App.tsx:98-99 | the house index of any 32-bit hash is below 4, and its house has a colour |
| HouseTable.HouseOf | src/App.tsx:98-99 | the house chosen for any image string is one of the four houses and has a colour |
| HouseTable.HouseIndexOfMinimum | src/App.tsx:98-99 | the hash -2^31 selects house 0, with no overflow in the absolute value |
| HouseTable.HouseIndexSignless | src/App.tsx:98-99 | a hash and its negation select the same house |
| HouseTable.HouseIndexOfNonNegative | src/App.tsx:98-99 | a non-negative hash selects the house whose index is congruent to the hash modulo 4 |
| HouseTable.EveryHouseReachable | src/App.tsx:5-10 | every house is selected by some input: the one-code-unit string [k] selects house k |
| SortingState.Initial | src/App.tsx:37-49 | the initial state meets both invariants, has no image and no running interval |
| SortingState.Truthy | src/App.tsx:95 | the truthiness of a `string` or `null` (also used for lines 118, 132 and 165): null and "" are falsy; no ensures of its own, `ShownMessage`, `StartSorting` and `UiInv` are stated with it |
| SortingState.ReadStarted | src/App.tsx:52-54 | a picked file starts one more pending read; no ensures of its own, `Session.HandleImageUpload` is proved equal to it |
| SortingState.Uploaded | src/App.tsx:55-61 | the five setter calls of `onload`; no ensures of its own, `Session.OnReaderLoad` is proved equal to it through `ReadFinished` |
| SortingState.ReadFinished | src/App.tsx:55-61 | one pending read runs `onload`; no ensures of its own, `Session.OnReaderLoad` is proved equal to it; `EnabledPreservesUiInv`, `LandsOverReadBreaksUiInv` and `StaleTickAfterUpload` are about it |
| SortingState.ReadAborted | src/App.tsx:52-62 | a pending read fails and, with no `onerror` handler, only stops being pending; no ensures of its own, `Session.OnReaderError` is proved equal to it; `EnabledPreservesUiInv` covers it |
| SortingState.CropChanged | src/App.tsx:136 | `setCrop(c)`; no ensures of its own, `Session.OnCropChange` is proved equal to it |
| SortingState.CropCompleted | src/App.tsx:137 | `setCompletedCrop(c)`; no ensures of its own, `Session.OnCropComplete` is proved equal to it |
| SortingState.ImageLoaded | src/App.tsx:145-150 | the image's `onLoad`; no ensures of its own, `Session.OnImageLoad` is proved equal to it |
| SortingState.Cropped | src/App.tsx:66-92 | getCroppedImg; no ensures of its own, `Session.GetCroppedImg` is proved equal to it |
| SortingState.Started | src/App.tsx:94-113 | startSorting; no ensures of its own, `Session.StartSorting` is proved equal to it; `RevealTimeline` and `ShownHouseIsCurrent` are about it |
| SortingState.Ticked | src/App.tsx:103-111 | one firing of an interval; no ensures of its own, `Session.Tick` is proved equal to it; `AdvanceRunning`, `RevealTimeline` and `StaleTickAfterUpload` are about it |
| SortingState.Enabled | src/App.tsx:116-181 | which control the markup renders in which state (lines 118, 132, 165 and 179): the file input without an image, the crop widget and its button without a cropped image, the start button on a cropped image not being sorted; no ensures of its own, every `UiInv` lemma, `RevealTimeline` and `NoReadWhileTicking` are stated with it |
| SortingState.ApplyPreservesInv | src/App.tsx:52-113 | every handler and tick, in any order, keeps `-1 <= messageIndex <= 3`, every captured house index below 4, and the selected house one of the houses |
| SortingState.EnabledPreservesUiInv | src/App.tsx:52-179 | every event that can happen keeps the interface invariant, unless it is a read finishing while another read is pending. The invariant says: reads are pending only while no image is selected; not sorting means idle; sorting means at most one interval, for the current cropped image |
| SortingState.RunPreservesUiInv | src/App.tsx:52-179 | any sequence of events that can happen, from a state with the interface invariant, keeps it unless two reads overlap in it |
| SortingState.ReachableUiInv | src/App.tsx:37-179 | every state reachable from mounting satisfies the interface invariant, unless two reads overlapped on the way |
| SortingState.ShownMessage | src/App.tsx:189-193 | a message is shown exactly when a truthy cropped image is being sorted with a message index of at least 0, and it is always an entry of the message list |
| SortingState.ShownHouse | src/App.tsx:194-199 | a shown house is one of the houses, shown with its own colour class, and only together with a message |
| SortingState.ShownHouseIsCurrent | src/App.tsx:165-199 | in a state with the interface invariant, a house is shown exactly when the reveal has finished, and it is the house of the cropped image on screen |
| SortingState.AdvanceRunning | src/App.tsx:103-111 | from a running reveal at message i, each tick raises the message by one until 3, the next reveals the captured house and clears the interval, and later ticks change nothing |
| SortingState.RevealTimeline | src/App.tsx:94-112 | after starting, ticks 1-3 show messages 1-3 with no house; the 4th tick reveals the house of the cropped image at start and stops the interval; nothing changes after that |
| SortingState.StaleTickAfterUpload | src/App.tsx:52-64 | an upload while an interval runs leaves the session idle but the interval running, and its next tick sets the message index to 0 |
| SortingState.LandsOverReadBreaksUiInv | src/App.tsx:52-64 | with two reads pending, the first that finishes with a non-empty data URL can happen and breaks the interface invariant |
| SortingState.OverlappingReadsShowStaleHouse | src/App.tsx:52-118 | picking two files before the first read finishes gives a run the interface allows that ends showing house 1 next to a cropped image whose house is house 2 |
| SortingState.NoReadWhileTicking | src/App.tsx:118 | in a state with the interface invariant and a running interval, the file input is not rendered and no read is pending, so none can finish or fail |
| SortingState.FailedReadThenRetry | src/App.tsx:52-62 | a failed read followed by a new pick and a successful read is an allowed run without overlapping reads; it ends with the second image selected, no read pending, and the interface invariant |
| App.Session.constructor | src/App.tsx:37-49 | the state hooks start as: no image, the 100x100 pixel crop at the origin, no completed crop, no cropped image, not sorting, message -1, no house, no interval and no pending read |
| App.Session.HandleImageUpload | src/App.tsx:52-54 | when a file was picked, one more read is pending; nothing else changes |
| App.Session.OnReaderLoad | src/App.tsx:55-61 | one pending read finishes: sets the image; clears the cropped image, the sorting flag and the house; sets the message index to -1; leaves the crop, the completed crop and every interval unchanged |
| App.Session.OnReaderError | src/App.tsx:52-62 | a pending read fails: with no `onerror` handler, no state hook changes and one read fewer is pending |
| App.Session.OnCropChange | src/App.tsx:136 | stores the in-progress crop and nothing else |
| App.Session.OnCropComplete | src/App.tsx:137 | stores the completed pixel crop and nothing else |
| App.Session.OnImageLoad | src/App.tsx:145-150 | without a completed crop, the current crop becomes the completed crop in pixels; otherwise nothing changes |
| App.Session.GetCroppedImg | src/App.tsx:66-92 | without the image element, a completed crop or a drawing context nothing changes; otherwise the cropped image is the encoding of a canvas whose width and height are the completed crop's |
| App.Session.StartSorting | src/App.tsx:94-113 | without a truthy cropped image nothing changes; otherwise sorting starts at message 0, the house is left as it was, and one interval starts, capturing the house index of the cropped image's hash |
| App.Session.Tick | src/App.tsx:103-111 | below the last message the index rises by exactly one and nothing else changes; at the last message the index stays, the captured house is revealed and this interval is cleared |

## Left out

- The `FileReader` read (lines 53-54 and 62) is asynchronous browser I/O. It is modelled only as a pending read that later delivers an opaque data URL or fails. The file guard of line 53 is the boolean `picked`.
- Canvas `drawImage` and `toDataURL`, and the `scaleX`/`scaleY` divisions (lines 69-91), are a foreign graphics API with floating-point factors. The encoding is a function parameter `encode`. `Canvas` records only the output size and the crop it copies.
- The element reference `imageRef.current` and the 2D context `ctx` become the boolean parameters `imageReady` and `contextReady` of `GetCroppedImg`. Capturing the reference in `onLoad` (line 146) is DOM behaviour and is not modelled.
- The `ReactCrop` widget (lines 134-141) is an external library. Only the rectangles it reports through `onChange` and `onComplete` are modelled.
- Crop coordinates are integers. Fractional pixel values, and how a canvas converts them to its integer size, are not modelled.
- `setInterval` timing (2000 ms, line 112) is replaced by explicit `Tick(k)` calls.
- The markup (lines 115-209) is modelled only as what decides behaviour: which controls are rendered (`Enabled`) and what message and house are shown (`ShownMessage`, `ShownHouse`). Styling is not modelled.
- React's batching of state updates, and StrictMode's repeated calls of updater functions, are not modelled. The setter calls of one handler take effect together, in program order.
- `(hash << 5) - hash + c` is floating-point arithmetic in JavaScript. It is exact here because every intermediate value is below 2^53 in magnitude, so the model uses integers.
