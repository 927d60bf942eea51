/** The app's top-level view model (`AppViewModel`): loads the photo inventory, and
    shows an error, an empty screen, or a slideshow over the photos it got. */
module AppScreen {
  import opened Model
  import PhotoRepository
  import opened SlideshowScreen

  /** Android's back key, which asks for a reload. */
  const KeycodeBack: int := 4

  datatype AppUiState =
    | Error
    | Loading
    | Empty
    | Running(slideShowViewModel: SlideshowViewModel)

  class AppViewModel {
    var uiState: AppUiState
    /** The slideshow built by the last load that found photos. */
    var slideshowViewModel: SlideshowViewModel?
    /** Whether the view model is subscribed to the event bus. */
    var registered: bool

    /** A running screen shows the slideshow the view model keeps, and that slideshow is
        consistent and subscribed to the event bus. */
    ghost predicate Valid()
      reads this, slideshowViewModel
    {
      uiState.Running? ==>
        && slideshowViewModel == uiState.slideShowViewModel
        && slideshowViewModel.Valid()
        && slideshowViewModel.registered
    }

    /** `AppViewModel(...)`: subscribes and starts a load, so the first state is
        `Loading`; no slideshow exists yet. */
    constructor ()
      ensures Valid()
      ensures uiState == Loading && slideshowViewModel == null && registered
    {
      uiState := Loading;
      slideshowViewModel := null;
      registered := true;
    }

    /** The synchronous part of `getPhotos()`: the screen shows `Loading` until the
        launched load completes (`CompleteGetPhotos`). */
    method GetPhotos()
      modifies this
      ensures Valid()
      ensures uiState == Loading
      ensures slideshowViewModel == old(slideshowViewModel) && registered == old(registered)
    {
      uiState := Loading;
    }

    /** The body of the coroutine `getPhotos()` launches, given what the repository's
        `getPhotos` returned or threw. A failure shows `Error`; no photos shows `Empty`
        and leaves the previous slideshow as it was; photos clean up the previous
        slideshow and start a new one over exactly those photos. */
    method CompleteGetPhotos(fetched: Result<seq<Photo>>)
      modifies this, slideshowViewModel
      ensures Valid()
      ensures fetched.Err? ==> uiState == Error
      ensures fetched == Ok([]) ==> uiState == Empty
      ensures uiState.Running? <==> fetched.Ok? && fetched.value != []
      ensures uiState.Running? ==>
        && fresh(slideshowViewModel)
        && slideshowViewModel.photos == fetched.value
        && slideshowViewModel.currentIndex == 0
        && slideshowViewModel.autoAdvance
        && (old(slideshowViewModel) != null ==> !old(slideshowViewModel).registered)
      ensures !uiState.Running? ==>
        && slideshowViewModel == old(slideshowViewModel)
        && (slideshowViewModel != null ==> unchanged(slideshowViewModel))
      ensures registered == old(registered)
    {
      match fetched {
        case Err(_) =>
          uiState := Error;
        case Ok(photos) =>
          if photos == [] {
            uiState := Empty;
          } else {
            if slideshowViewModel != null {
              slideshowViewModel.Cleanup();
            }
            var vm := new SlideshowViewModel(photos);
            slideshowViewModel := vm;
            uiState := Running(vm);
          }
      }
    }

    /** A whole load: `getPhotos()` followed by its coroutine, over the repository's
        inventory of the storage directory. */
    method LoadPhotos(storagePath: string, listing: seq<string>, fs: FileSystem,
                      sha1: seq<Byte> -> seq<Byte>)
      modifies this, slideshowViewModel
      ensures Valid()
      ensures var inventory := PhotoRepository.Inventory(storagePath, listing, fs, sha1);
        && (uiState == Error <==> inventory.Err?)
        && (uiState == Empty <==> inventory == Ok([]))
        && (uiState.Running? <==> inventory.Ok? && inventory.value != [])
        && (uiState.Running? ==> slideshowViewModel.photos == inventory.value)
      ensures registered == old(registered)
    {
      GetPhotos();
      var fetched := PhotoRepository.GetPhotos(storagePath, listing, fs, sha1);
      CompleteGetPhotos(fetched);
    }

    /** `reload()`. */
    method Reload()
      modifies this
      ensures Valid()
      ensures uiState == Loading
      ensures slideshowViewModel == old(slideshowViewModel) && registered == old(registered)
    {
      GetPhotos();
    }

    /** `handleRemoteButton`: the back key reloads; every other key changes nothing. */
    method HandleRemoteButton(event: Event)
      requires Valid() && event.RemoteKeyPressEvent?
      modifies this
      ensures Valid()
      ensures event.keyCode == KeycodeBack ==> uiState == Loading
      ensures event.keyCode != KeycodeBack ==> uiState == old(uiState)
      ensures slideshowViewModel == old(slideshowViewModel) && registered == old(registered)
    {
      if event.keyCode == KeycodeBack {
        Reload();
      }
    }

    /** `handleReloadRequest`: every reload request, whatever its reason, reloads. */
    method HandleReloadRequest(event: Event)
      requires event.ReloadRequest?
      modifies this
      ensures Valid()
      ensures uiState == Loading
      ensures slideshowViewModel == old(slideshowViewModel) && registered == old(registered)
    {
      Reload();
    }
  }
}
