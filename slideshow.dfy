/** The slideshow (`SlideshowViewModel`): an index into a non-empty photo list that
    moves forward and backward with wrap-around, and an auto-advance switch. */
module SlideshowScreen {
  import opened Model

  /** Android key codes the slideshow reacts to. */
  const KeycodeDpadLeft: int := 21
  const KeycodeDpadRight: int := 22
  const KeycodeDpadCenter: int := 23

  datatype SlideDirection = Forward | Backward

  /** The index `next` moves to. */
  function NextIndex(i: int, size: int): int {
    if i + 1 >= size then 0 else i + 1
  }

  /** The index `prev` moves to. */
  function PrevIndex(i: int, size: int): int {
    if i - 1 < 0 then size - 1 else i - 1
  }

  /** `next` is `(i + 1) mod size` and `prev` is `(i - 1 + size) mod size`; both stay in
      bounds. */
  lemma IndexMovesAreModular(i: int, size: int)
    requires 0 <= i < size
    ensures NextIndex(i, size) == (i + 1) % size
    ensures PrevIndex(i, size) == (i - 1 + size) % size
    ensures 0 <= NextIndex(i, size) < size && 0 <= PrevIndex(i, size) < size
  {
  }

  /** `prev` undoes `next`, and `next` undoes `prev`. */
  lemma PrevUndoesNext(i: int, size: int)
    requires 0 <= i < size
    ensures PrevIndex(NextIndex(i, size), size) == i
    ensures NextIndex(PrevIndex(i, size), size) == i
  {
  }

  /** The index after `n` calls to `next`. */
  function AdvanceBy(i: int, size: int, n: nat): int {
    if n == 0 then i else NextIndex(AdvanceBy(i, size, n - 1), size)
  }

  /** Up to a full round, `n` steps forward from `i` land on `i + n`, wrapped past the
      end of the list at most once. */
  lemma {:induction false} AdvanceByWraps(i: int, size: int, n: nat)
    requires 0 <= i < size && n <= size
    ensures AdvanceBy(i, size, n) == if i + n < size then i + n else i + n - size
  {
    if n > 0 {
      AdvanceByWraps(i, size, n - 1);
    }
  }

  /** `size` calls to `next` come back to the photo they started from. */
  lemma FullCycleReturns(i: int, size: int)
    requires 0 <= i < size
    ensures AdvanceBy(i, size, size) == i
    ensures forall n: nat :: 0 < n < size ==> AdvanceBy(i, size, n) != i
  {
    AdvanceByWraps(i, size, size);
    forall n: nat | 0 < n < size
      ensures AdvanceBy(i, size, n) != i
    {
      AdvanceByWraps(i, size, n);
    }
  }

  class SlideshowViewModel {
    const photos: seq<Photo>
    var currentIndex: int
    var autoAdvance: bool
    var currentPhoto: string
    var previousPhoto: string
    var direction: SlideDirection
    /** Whether the view model is subscribed to the event bus. */
    var registered: bool

    /** The index is in bounds and `currentPhoto` is the photo at it. */
    ghost predicate Valid()
      reads this
    {
      0 <= currentIndex < |photos| && currentPhoto == photos[currentIndex].filename
    }

    /** `SlideshowViewModel(photos)`: the first photo, moving forward, auto-advance on,
        subscribed to the event bus. Reading `photos[0]` demands a non-empty list. */
    constructor (photos: seq<Photo>)
      requires |photos| > 0
      ensures Valid() && this.photos == photos
      ensures currentIndex == 0 && currentPhoto == photos[0].filename
      ensures previousPhoto == currentPhoto && direction == Forward
      ensures autoAdvance && registered
    {
      this.photos := photos;
      currentIndex := 0;
      autoAdvance := true;
      currentPhoto := photos[0].filename;
      previousPhoto := photos[0].filename;
      direction := Forward;
      registered := true;
    }

    /** `next()`. */
    method Next()
      requires Valid()
      modifies this
      ensures Valid()
      ensures currentIndex == NextIndex(old(currentIndex), |photos|)
      ensures previousPhoto == old(currentPhoto) && direction == Forward
      ensures autoAdvance == old(autoAdvance) && registered == old(registered)
    {
      currentIndex := currentIndex + 1;
      if currentIndex >= |photos| {
        currentIndex := 0;
      }
      previousPhoto := currentPhoto;
      currentPhoto := photos[currentIndex].filename;
      direction := Forward;
    }

    /** `prev()`. */
    method Prev()
      requires Valid()
      modifies this
      ensures Valid()
      ensures currentIndex == PrevIndex(old(currentIndex), |photos|)
      ensures previousPhoto == old(currentPhoto) && direction == Backward
      ensures autoAdvance == old(autoAdvance) && registered == old(registered)
    {
      currentIndex := currentIndex - 1;
      if currentIndex < 0 {
        currentIndex := |photos| - 1;
      }
      previousPhoto := currentPhoto;
      currentPhoto := photos[currentIndex].filename;
      direction := Backward;
    }

    /** `play()`: switches auto-advance on (the timer job it starts is not modelled). */
    method Play()
      modifies this
      ensures autoAdvance
      ensures currentIndex == old(currentIndex) && currentPhoto == old(currentPhoto)
      ensures previousPhoto == old(previousPhoto) && direction == old(direction)
      ensures registered == old(registered)
    {
      autoAdvance := true;
    }

    /** `pause()`. */
    method Pause()
      modifies this
      ensures !autoAdvance
      ensures currentIndex == old(currentIndex) && currentPhoto == old(currentPhoto)
      ensures previousPhoto == old(previousPhoto) && direction == old(direction)
      ensures registered == old(registered)
    {
      autoAdvance := false;
    }

    /** `togglePlayPause()`: flips auto-advance and nothing else. */
    method TogglePlayPause()
      modifies this
      ensures autoAdvance == !old(autoAdvance)
      ensures currentIndex == old(currentIndex) && currentPhoto == old(currentPhoto)
      ensures previousPhoto == old(previousPhoto) && direction == old(direction)
      ensures registered == old(registered)
    {
      if autoAdvance {
        Pause();
      } else {
        Play();
      }
    }

    /** One tick of the auto-advance job: moves forward only while auto-advance is on. */
    method AutoAdvanceTick()
      requires Valid()
      modifies this
      ensures Valid()
      ensures currentIndex == if old(autoAdvance) then NextIndex(old(currentIndex), |photos|) else old(currentIndex)
      ensures old(autoAdvance) ==> previousPhoto == old(currentPhoto) && direction == Forward
      ensures !old(autoAdvance) ==>
        && currentPhoto == old(currentPhoto)
        && previousPhoto == old(previousPhoto) && direction == old(direction)
      ensures autoAdvance == old(autoAdvance) && registered == old(registered)
    {
      if autoAdvance {
        Next();
      }
    }

    /** `handleManualAdvance(::next)` when `forward`, else `handleManualAdvance(::prev)`:
        the move happens and auto-advance keeps its setting (the timer is restarted). */
    method HandleManualAdvance(forward: bool)
      requires Valid()
      modifies this
      ensures Valid()
      ensures currentIndex == if forward then NextIndex(old(currentIndex), |photos|)
                              else PrevIndex(old(currentIndex), |photos|)
      ensures previousPhoto == old(currentPhoto)
      ensures direction == if forward then Forward else Backward
      ensures autoAdvance == old(autoAdvance) && registered == old(registered)
    {
      var wasPlaying := autoAdvance;
      if forward {
        Next();
      } else {
        Prev();
      }
      if wasPlaying {
        Play();
      }
    }

    /** `handleRemoteButton`: right moves forward, left moves back, center toggles
        play/pause, any other key changes nothing. */
    method HandleRemoteButton(keyCode: int)
      requires Valid()
      modifies this
      ensures Valid()
      ensures keyCode == KeycodeDpadRight ==>
        currentIndex == NextIndex(old(currentIndex), |photos|) && direction == Forward
        && previousPhoto == old(currentPhoto) && autoAdvance == old(autoAdvance)
      ensures keyCode == KeycodeDpadLeft ==>
        currentIndex == PrevIndex(old(currentIndex), |photos|) && direction == Backward
        && previousPhoto == old(currentPhoto) && autoAdvance == old(autoAdvance)
      ensures keyCode == KeycodeDpadCenter ==>
        autoAdvance == !old(autoAdvance) && currentIndex == old(currentIndex)
        && previousPhoto == old(previousPhoto) && direction == old(direction)
      ensures keyCode !in {KeycodeDpadLeft, KeycodeDpadRight, KeycodeDpadCenter} ==>
        currentIndex == old(currentIndex) && currentPhoto == old(currentPhoto)
        && previousPhoto == old(previousPhoto) && direction == old(direction)
        && autoAdvance == old(autoAdvance)
      ensures registered == old(registered)
    {
      if keyCode == KeycodeDpadRight {
        HandleManualAdvance(true);
      } else if keyCode == KeycodeDpadLeft {
        HandleManualAdvance(false);
      } else if keyCode == KeycodeDpadCenter {
        TogglePlayPause();
      }
    }

    /** `cleanup()`: unsubscribes from the event bus. */
    method Cleanup()
      modifies this
      ensures !registered
      ensures currentIndex == old(currentIndex) && currentPhoto == old(currentPhoto)
      ensures previousPhoto == old(previousPhoto) && direction == old(direction)
      ensures autoAdvance == old(autoAdvance)
    {
      registered := false;
    }
  }

  /** A caller's view: `next` then `prev` shows the starting photo again. */
  method NextThenPrev(vm: SlideshowViewModel)
    requires vm.Valid()
    modifies vm
    ensures vm.Valid() && vm.currentIndex == old(vm.currentIndex)
    ensures vm.currentPhoto == old(vm.currentPhoto) && vm.direction == Backward
  {
    vm.Next();
    vm.Prev();
    PrevUndoesNext(old(vm.currentIndex), |vm.photos|);
  }
}
