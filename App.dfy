/**
 The sorting-hat component as an object: its fields are the component's state
 variables, and each method is one handler or callback assigning them.
 */
module App {
  import opened Hash
  import opened HouseTable
  import opened SortingState

  class Session {
    var selectedImage: Option<Text>
    var crop: Crop
    var completedCrop: Option<PixelCrop>
    var croppedImage: Option<Text>
    var isSorting: bool
    var messageIndex: int
    var selectedHouse: Option<string>
    /** The house index captured by each interval that is still running. */
    var timers: seq<nat>
    /** How many FileReader reads have started and not yet finished. */
    var pendingReads: nat

    /** The state as a value. */
    function Snapshot(): SortingState.Snapshot
      reads this
    {
      SortingState.Snapshot(selectedImage, crop, completedCrop, croppedImage,
                            isSorting, messageIndex, selectedHouse, timers, pendingReads)
    }

    ghost predicate Valid()
      reads this
    {
      Inv(Snapshot())
    }

    /** The initial values of the state hooks (lines 37-49). */
    constructor ()
      ensures Valid() && Snapshot() == Initial()
    {
      selectedImage := None;
      crop := DefaultCrop;
      completedCrop := None;
      croppedImage := None;
      isSorting := false;
      messageIndex := -1;
      selectedHouse := None;
      timers := [];
      pendingReads := 0;
    }

    /** handleImageUpload: picked says whether the input holds a file; if so a read starts. */
    method HandleImageUpload(picked: bool)
      requires Valid()
      modifies this
      ensures Valid() && Snapshot() == ReadStarted(old(Snapshot()), picked)
      ensures pendingReads == if picked then old(pendingReads) + 1 else old(pendingReads)
    {
      if picked {
        pendingReads := pendingReads + 1;
      }
    }

    /** The `onload` callback of one pending read, given the data URL it read. */
    method OnReaderLoad(url: Text)
      requires Valid() && pendingReads > 0
      modifies this
      ensures Valid() && Snapshot() == ReadFinished(old(Snapshot()), url)
      ensures selectedImage == Some(url) && croppedImage == None && !isSorting
      ensures messageIndex == -1 && selectedHouse == None && pendingReads == old(pendingReads) - 1
      ensures crop == old(crop) && completedCrop == old(completedCrop) && timers == old(timers)
    {
      pendingReads := pendingReads - 1;
      selectedImage := Some(url);
      croppedImage := None;
      isSorting := false;
      messageIndex := -1;
      selectedHouse := None;
    }

    /** A pending read fails. No `onerror` handler is set, so no state hook changes. */
    method OnReaderError()
      requires Valid() && pendingReads > 0
      modifies this
      ensures Valid() && Snapshot() == ReadAborted(old(Snapshot()))
      ensures pendingReads == old(pendingReads) - 1
    {
      pendingReads := pendingReads - 1;
    }

    /** The crop widget's `onChange`. */
    method OnCropChange(c: Crop)
      requires Valid()
      modifies this
      ensures Valid() && Snapshot() == CropChanged(old(Snapshot()), c)
      ensures crop == c
    {
      crop := c;
    }

    /** The crop widget's `onComplete`. */
    method OnCropComplete(c: PixelCrop)
      requires Valid()
      modifies this
      ensures Valid() && Snapshot() == CropCompleted(old(Snapshot()), c)
      ensures completedCrop == Some(c)
    {
      completedCrop := Some(c);
    }

    /** The image's `onLoad`, without the capture of the element reference. */
    method OnImageLoad()
      requires Valid()
      modifies this
      ensures Valid() && Snapshot() == ImageLoaded(old(Snapshot()))
      ensures old(completedCrop).Some? ==> completedCrop == old(completedCrop)
      ensures old(completedCrop).None? ==> completedCrop == Some(crop.(unit := Px))
    {
      if completedCrop.None? {
        completedCrop := Some(crop.(unit := Px));
      }
    }

    /** getCroppedImg: imageReady and contextReady say whether the image element
        and the canvas context exist; encode draws and encodes a canvas. */
    method GetCroppedImg(imageReady: bool, contextReady: bool, encode: Canvas -> Text)
      requires Valid()
      modifies this
      ensures Valid() && Snapshot() == Cropped(old(Snapshot()), imageReady, contextReady, encode)
      ensures !imageReady || old(completedCrop).None? || !contextReady ==> Snapshot() == old(Snapshot())
      ensures imageReady && old(completedCrop).Some? && contextReady ==>
        var c := old(completedCrop).value;
        croppedImage == Some(encode(Canvas(c.width, c.height, c)))
    {
      if !imageReady || completedCrop.None? {
        return;
      }
      if !contextReady {
        return;
      }
      var c := completedCrop.value;
      var canvas := Canvas(c.width, c.height, c);
      croppedImage := Some(encode(canvas));
    }

    /** startSorting: fixes the house from the cropped image and starts an interval. */
    method StartSorting()
      requires Valid()
      modifies this
      ensures Valid() && Snapshot() == Started(old(Snapshot()))
      ensures !Truthy(old(croppedImage)) ==> Snapshot() == old(Snapshot())
      ensures Truthy(old(croppedImage)) ==>
        && isSorting && messageIndex == 0 && selectedHouse == old(selectedHouse)
        && croppedImage == old(croppedImage)
        && timers == old(timers) + [HouseIndex(HashOf(croppedImage.value))]
    {
      if !Truthy(croppedImage) {
        return;
      }
      var hash := HashString(croppedImage.value);
      var houseIndex := Abs(hash) % |Houses|;
      isSorting := true;
      messageIndex := 0;
      timers := timers + [houseIndex];
    }

    /** The callback of the k-th running interval. */
    method Tick(k: nat)
      requires Valid() && k < |timers|
      modifies this
      ensures Valid() && Snapshot() == Ticked(old(Snapshot()), k)
      ensures old(messageIndex) < LastMessage ==>
        messageIndex == old(messageIndex) + 1 && selectedHouse == old(selectedHouse) && timers == old(timers)
      ensures old(messageIndex) >= LastMessage ==>
        && messageIndex == old(messageIndex)
        && selectedHouse == Some(Houses[old(timers)[k]])
        && |timers| == |old(timers)| - 1
    {
      ApplyPreservesInv(Snapshot(), SortingState.Tick(k));
      var prev := messageIndex;
      if prev >= |SortingMessages| - 1 {
        var houseIndex := timers[k];
        timers := timers[..k] + timers[k + 1..];
        selectedHouse := Some(Houses[houseIndex]);
        messageIndex := prev;
      } else {
        messageIndex := prev + 1;
      }
    }
  }
}
