/**
 * The storage locator: the first removable, readable volume in the order the
 * platform enumerates them, else the emulator's internal storage, else nothing.
 */
module StorageLocator {
  import opened Wrappers

  /** A volume's backing directory and what `exists()` / `canRead()` report for it. */
  datatype VolumeDir = VolumeDir(path: string, present: bool, canRead: bool)

  /** A storage volume: the removable flag and the directory, which may be null. */
  datatype StorageVolume = StorageVolume(removable: bool, directory: Option<VolumeDir>)

  /**
   * What asking the platform for its volumes gives: the list; no list at all
   * (the service or its list is null, so the loop is skipped); or an exception,
   * which the source catches and turns into null.
   */
  datatype VolumeQuery = Volumes(list: seq<StorageVolume>) | NoVolumeList | QueryFailed

  const InternalPath: string := "/storage/emulated/0/"

  /** The directory the locator hands to the scanner. */
  datatype UsbChoice = RemovableDir(index: nat, path: string) | InternalDir {
    function Path(): string {
      match this
      case RemovableDir(_, p) => p
      case InternalDir => InternalPath
    }
  }

  /** A removable volume whose directory is known, exists and is readable. */
  predicate Qualifies(v: StorageVolume)
    ensures Qualifies(v) ==> v.directory.Some?
    ensures !v.removable ==> !Qualifies(v)
  {
    v.removable && v.directory.Some? && v.directory.value.present && v.directory.value.canRead
  }

  /** The index of the first qualifying volume at or after `from`. */
  function FirstQualifying(vs: seq<StorageVolume>, from: nat): (r: Option<nat>)
    requires from <= |vs|
    ensures r.Some? ==>
      from <= r.value < |vs| && Qualifies(vs[r.value]) &&
      forall j :: from <= j < r.value ==> !Qualifies(vs[j])
    ensures r.None? ==> forall j :: from <= j < |vs| ==> !Qualifies(vs[j])
    decreases |vs| - from
  {
    if from == |vs| then None
    else if Qualifies(vs[from]) then Some(from)
    else FirstQualifying(vs, from + 1)
  }

  /** The fallback: the internal path when it exists. */
  function Fallback(internalExists: bool): (r: Option<UsbChoice>)
    ensures r.Some? <==> internalExists
    ensures r.Some? ==> r.value.Path() == InternalPath
  {
    if internalExists then Some(InternalDir) else None
  }

  /**
   * `findUsbDevice`. Over an enumerated list the first qualifying volume wins
   * (no later one is ever chosen); without one, the internal path if it
   * exists; else nothing. With no list only the fallback is tried, and an
   * exception gives nothing.
   */
  function SelectVolume(query: VolumeQuery, internalExists: bool): (r: Option<UsbChoice>)
    ensures query.QueryFailed? ==> r == None
    ensures query.NoVolumeList? ==> r == (if internalExists then Some(InternalDir) else None)
    ensures query.Volumes? ==>
      var vs := query.list;
      match r
      case Some(RemovableDir(k, p)) =>
        k < |vs| && Qualifies(vs[k]) && p == vs[k].directory.value.path &&
        forall j :: 0 <= j < |vs| && j != k && Qualifies(vs[j]) ==> k < j
      case Some(InternalDir) =>
        internalExists && forall j :: 0 <= j < |vs| ==> !Qualifies(vs[j])
      case None =>
        !internalExists && forall j :: 0 <= j < |vs| ==> !Qualifies(vs[j])
  {
    match query
    case QueryFailed => None
    case NoVolumeList => Fallback(internalExists)
    case Volumes(vs) =>
      match FirstQualifying(vs, 0)
      case Some(k) => Some(RemovableDir(k, vs[k].directory.value.path))
      case None => Fallback(internalExists)
  }

  /** A qualifying volume anywhere in the list means the internal fallback is not used. */
  lemma QualifyingVolumeWins(vs: seq<StorageVolume>, internalExists: bool, k: nat)
    requires k < |vs| && Qualifies(vs[k])
    ensures SelectVolume(Volumes(vs), internalExists).Some?
    ensures SelectVolume(Volumes(vs), internalExists).value.RemovableDir?
    ensures SelectVolume(Volumes(vs), internalExists).value.index <= k
  {
  }

  /** `findUsbDevice` as the source writes it: an early-return loop, then the fallback. */
  method FindUsbDevice(query: VolumeQuery, internalExists: bool) returns (found: Option<UsbChoice>)
    ensures found == SelectVolume(query, internalExists)
  {
    if query.QueryFailed? {
      return None;
    }
    if query.Volumes? {
      var vs := query.list;
      var i := 0;
      while i < |vs|
        invariant 0 <= i <= |vs|
        invariant FirstQualifying(vs, 0) == FirstQualifying(vs, i)
      {
        var volume := vs[i];
        if volume.removable {
          var dir := volume.directory;
          if dir.Some? && dir.value.present && dir.value.canRead {
            return Some(RemovableDir(i, dir.value.path));
          }
        }
        i := i + 1;
      }
    }
    if internalExists {
      return Some(InternalDir);
    }
    return None;
  }
}
