/**
 * The activity's mutable state and the methods that change it: the file list
 * and cursor of the playback loop, the delayed callbacks it posts, and the
 * rotation index.
 */
module Activity {
  import opened Wrappers
  import opened MediaScanner
  import opened StorageLocator
  import opened Rotation
  import opened PlaybackLoop

  /** The player states `onPlaybackStateChanged` reports (`Player.STATE_*`). */
  datatype PlaybackState = StateIdle | StateBuffering | StateReady | StateEnded

  class MainActivity {
    /** The cursor into `videoFiles`; it may run one or more past the end until the next play wraps it. */
    var currentVideoIndex: int
    /** The playable files of the last scan, in playback order. */
    var videoFiles: seq<FileEntry>
    /** Delayed `playCurrentVideo` calls posted to the handler and not yet run. */
    var pendingCallbacks: nat
    /** The index into the rotation table. */
    var rotationState: int

    /**
     * The cursor never goes negative; a callback is only ever pending once a
     * non-empty list has been scanned; and the cursor is never further past
     * the list's last index than the number of callbacks still pending.
     */
    ghost predicate Valid()
      reads this
    {
      && currentVideoIndex >= 0
      && (pendingCallbacks > 0 ==> |videoFiles| > 0)
      && (|videoFiles| > 0 ==> currentVideoIndex <= |videoFiles| - 1 + pendingCallbacks)
    }

    /** The field initialisers; `videoFiles` is `lateinit` and starts with no files. */
    constructor ()
      ensures Valid()
      ensures currentVideoIndex == 0 && videoFiles == [] && pendingCallbacks == 0 && rotationState == 0
    {
      currentVideoIndex := 0;
      videoFiles := [];
      pendingCallbacks := 0;
      rotationState := 0;
    }

    // ------------------------------------------------------------ rotation

    /** `loadRotationPreference`: read the stored index, resetting one past the table to 0. */
    method LoadRotationPreference(prefs: Preferences)
      requires Valid()
      modifies this
      ensures Valid()
      ensures rotationState == LoadedRotation(prefs.GetInt(KeyRotation, 0))
      ensures currentVideoIndex == old(currentVideoIndex) && videoFiles == old(videoFiles)
      ensures pendingCallbacks == old(pendingCallbacks)
    {
      rotationState := prefs.GetInt(KeyRotation, 0);
      if rotationState >= RotationCount {
        rotationState := 0;
      }
    }

    /** `saveRotationPreference`: write the index under its key. */
    method SaveRotationPreference(prefs: Preferences)
      modifies prefs
      ensures prefs.ints == old(prefs.ints)[KeyRotation := rotationState]
    {
      prefs.PutInt(KeyRotation, rotationState);
    }

    /** `switchSide`: step the index and persist it; rendering the angle is not modelled. */
    method SwitchSide(prefs: Preferences)
      requires Valid()
      modifies this, prefs
      ensures Valid()
      ensures rotationState == Toggle(old(rotationState))
      ensures prefs.ints == old(prefs.ints)[KeyRotation := rotationState]
      ensures prefs.GetInt(KeyRotation, 0) == rotationState
      ensures currentVideoIndex == old(currentVideoIndex) && videoFiles == old(videoFiles)
      ensures pendingCallbacks == old(pendingCallbacks)
    {
      rotationState := TruncRem(rotationState + 1, RotationCount);
      SaveRotationPreference(prefs);
    }

    // ------------------------------------------------------------ playback

    /** `playNextVideo`: advance the cursor by one and post a delayed `playCurrentVideo`. */
    method PlayNextVideo()
      requires Valid() && |videoFiles| > 0
      modifies this
      ensures Valid()
      ensures currentVideoIndex == old(currentVideoIndex) + 1
      ensures pendingCallbacks == old(pendingCallbacks) + 1
      ensures videoFiles == old(videoFiles) && rotationState == old(rotationState)
    {
      currentVideoIndex := currentVideoIndex + 1;
      pendingCallbacks := pendingCallbacks + 1;
    }

    /**
     * `playCurrentVideo`: wrap a cursor at or past the end to 0, hand the file
     * at the cursor to the player, and advance at once if that throws.
     * `shown` is the index of the file handed over.
     */
    method PlayCurrentVideo(launchFails: bool) returns (shown: nat)
      requires Valid() && |videoFiles| > 0
      modifies this
      ensures Valid()
      ensures shown < |videoFiles| && shown == WrapIndex(old(currentVideoIndex), |videoFiles|)
      ensures currentVideoIndex == shown + (if launchFails then 1 else 0)
      ensures pendingCallbacks == old(pendingCallbacks) + (if launchFails then 1 else 0)
      ensures videoFiles == old(videoFiles) && rotationState == old(rotationState)
    {
      if currentVideoIndex >= |videoFiles| {
        currentVideoIndex := 0;
      }
      shown := currentVideoIndex;
      var file := videoFiles[currentVideoIndex];  // the file handed to the player: in bounds
      if launchFails {
        PlayNextVideo();
      }
    }

    /** The listener's `onPlayerError`: the same advance as a natural end. */
    method OnPlayerError()
      requires Valid() && |videoFiles| > 0
      modifies this
      ensures Valid()
      ensures currentVideoIndex == old(currentVideoIndex) + 1
      ensures pendingCallbacks == old(pendingCallbacks) + 1
      ensures videoFiles == old(videoFiles) && rotationState == old(rotationState)
    {
      PlayNextVideo();
    }

    /** The listener's `onPlaybackStateChanged`: only `STATE_ENDED` advances. */
    method OnPlaybackStateChanged(playbackState: PlaybackState)
      requires Valid() && |videoFiles| > 0
      modifies this
      ensures Valid()
      ensures playbackState == StateEnded ==>
        currentVideoIndex == old(currentVideoIndex) + 1 && pendingCallbacks == old(pendingCallbacks) + 1
      ensures playbackState != StateEnded ==>
        currentVideoIndex == old(currentVideoIndex) && pendingCallbacks == old(pendingCallbacks)
      ensures videoFiles == old(videoFiles) && rotationState == old(rotationState)
    {
      if playbackState == StateEnded {
        PlayNextVideo();
      }
    }

    /**
     * The handler runs one posted callback after its delay: `playCurrentVideo`.
     * The callback is counted as consumed once it has run.
     */
    method RunPendingCallback(launchFails: bool) returns (shown: nat)
      requires Valid() && pendingCallbacks > 0
      modifies this
      ensures Valid()
      ensures shown < |videoFiles| && shown == WrapIndex(old(currentVideoIndex), |videoFiles|)
      ensures currentVideoIndex == shown + (if launchFails then 1 else 0)
      ensures pendingCallbacks == old(pendingCallbacks) - 1 + (if launchFails then 1 else 0)
      ensures videoFiles == old(videoFiles) && rotationState == old(rotationState)
    {
      shown := PlayCurrentVideo(launchFails);
      pendingCallbacks := pendingCallbacks - 1;
    }

    /**
     * `k` rounds of the listener and the handler with launches that succeed:
     * the file ends, then the posted callback plays the next one. Started
     * right after the first launch of a scan, the file shown last is that of
     * launch `k`.
     */
    method PlayEndedRounds(k: nat) returns (shown: nat)
      requires Valid() && |videoFiles| > 0 && pendingCallbacks == 0 && currentVideoIndex == 0
      modifies this
      ensures videoFiles == old(videoFiles) && rotationState == old(rotationState)
      ensures Valid() && |videoFiles| > 0 && pendingCallbacks == 0
      ensures shown == currentVideoIndex == PlayedAt(|videoFiles|, k)
    {
      shown := currentVideoIndex;
      for i := 0 to k
        invariant Valid() && |videoFiles| > 0 && pendingCallbacks == 0
        invariant videoFiles == old(videoFiles) && rotationState == old(rotationState)
        invariant shown == currentVideoIndex == PlayedAt(|videoFiles|, i)
      {
        OnPlaybackStateChanged(StateEnded);
        shown := RunPendingCallback(false);
      }
    }

    // ------------------------------------------------------------ start-up

    /**
     * `playFromUsbDevice`: scan the video sub-folder (or the root), and when
     * the list is not empty start at index 0; an empty list plays nothing.
     */
    method PlayFromUsbDevice(root: Root, launchFails: bool) returns (shown: Option<nat>)
      requires Valid() && pendingCallbacks == 0
      modifies this
      ensures Valid()
      ensures videoFiles == VideoOrder(Entries(SearchListing(root)))
      ensures rotationState == old(rotationState)
      ensures videoFiles == [] ==>
        shown == None && currentVideoIndex == old(currentVideoIndex) && pendingCallbacks == 0
      ensures videoFiles != [] ==>
        shown == Some(0) && currentVideoIndex == (if launchFails then 1 else 0) &&
        pendingCallbacks == (if launchFails then 1 else 0)
    {
      var videoFolder := FindVideoFolder(root);
      var searchDir := if videoFolder.Some? then Child(root, videoFolder.value).listing else root.listing;
      videoFiles := FindVideoFiles(searchDir);
      if |videoFiles| == 0 {
        return None;
      }
      currentVideoIndex := 0;
      var index := PlayCurrentVideo(launchFails);
      return Some(index);
    }

    /**
     * `findAndPlayFromUsb`: locate a directory and play from it. `mount`
     * gives the contents behind a path.
     */
    method FindAndPlayFromUsb(query: VolumeQuery, internalExists: bool, mount: string -> Root, launchFails: bool)
      returns (shown: Option<nat>)
      requires Valid() && pendingCallbacks == 0
      modifies this
      ensures Valid()
      ensures rotationState == old(rotationState)
      ensures SelectVolume(query, internalExists).None? ==>
        shown == None && videoFiles == old(videoFiles) &&
        currentVideoIndex == old(currentVideoIndex) && pendingCallbacks == 0
      ensures SelectVolume(query, internalExists).Some? ==>
        videoFiles == VideoOrder(Entries(SearchListing(mount(SelectVolume(query, internalExists).value.Path()))))
      ensures SelectVolume(query, internalExists).Some? && videoFiles == [] ==>
        shown == None && currentVideoIndex == old(currentVideoIndex) && pendingCallbacks == 0
      ensures SelectVolume(query, internalExists).Some? && videoFiles != [] ==>
        shown == Some(0) && currentVideoIndex == (if launchFails then 1 else 0) &&
        pendingCallbacks == (if launchFails then 1 else 0)
    {
      var usbDevice := FindUsbDevice(query, internalExists);
      if usbDevice.Some? {
        shown := PlayFromUsbDevice(mount(usbDevice.value.Path()), launchFails);
      } else {
        shown := None;
      }
    }
  }

  /**
   * A fresh activity scans `root` (whose scan is not empty), the first file
   * plays, and then `k` times the file ends and the posted callback runs. The
   * file shown last is the one `PlayedAt` predicts: launch k plays k mod size.
   */
  method PlayThroughEnds(root: Root, k: nat) returns (shown: nat)
    requires VideoOrder(Entries(SearchListing(root))) != []
    ensures shown == PlayedAt(|VideoOrder(Entries(SearchListing(root)))|, k)
  {
    var activity := new MainActivity();
    var first := activity.PlayFromUsbDevice(root, false);
    shown := activity.PlayEndedRounds(k);
  }
}
