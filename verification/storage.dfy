/** Where sketches live: storage drives, the preference fallback that picks
    the sketchbook drive, the sketchbook folder on it, and the mapping from
    a location tag plus relative path to a folder
    (`APDE.getSketchLocation(String, SketchLocation)`). */
module Storage {
  import opened Optional
  import Locations
  import opened Text
  import opened FileTree

  datatype DriveType = Internal | External | PrimaryExternal | SecondaryExternal

  /** `APDE.StorageDrive`: an absolute root path, a kind and a free-space
      summary (the summary is computed from the platform and only carried). */
  datatype StorageDrive = StorageDrive(root: string, kind: DriveType, space: string)

  /** Shared preferences, as string keys and string values. */
  type Prefs = map<string, string>

  const DrivePref := "pref_sketchbook_drive"
  const LegacyInternalPref := "internal_storage_sketchbook"
  const LocationPref := "pref_sketchbook_location"
  const DefaultSketchbookLocation := "Sketchbook"
  const LibrariesFolder := "libraries"

  /** `prefs.getString(key, default)`. */
  function GetString(prefs: Prefs, key: string, default: string): string
  {
    if key in prefs then prefs[key] else default
  }

  /** The kinds `getDefaultSketchbookStorageDrive` prefers. */
  const FirstChoice: set<DriveType> := {External, PrimaryExternal}

  /** Index of the last drive whose kind is in `kinds`. */
  function LastOfKind(drives: seq<StorageDrive>, kinds: set<DriveType>): (r: Option<nat>)
    ensures r.Some? ==> r.value < |drives| && drives[r.value].kind in kinds
                        && forall j :: r.value < j < |drives| ==> drives[j].kind !in kinds
    ensures r.None? ==> forall j :: 0 <= j < |drives| ==> drives[j].kind !in kinds
  {
    if drives == [] then None
    else if drives[|drives| - 1].kind in kinds then Some(|drives| - 1)
    else LastOfKind(drives[..|drives| - 1], kinds)
  }

  /** `getDefaultSketchbookStorageDrive`: the loop keeps overwriting its
      first choice with every external or primary external drive and its
      second choice with every internal drive, so the last of each wins. */
  function DefaultDrive(drives: seq<StorageDrive>): (r: Option<StorageDrive>)
    ensures r.None? <==> forall j :: 0 <= j < |drives| ==> drives[j].kind == SecondaryExternal
    ensures r.Some? ==>
      exists i :: && 0 <= i < |drives|
                  && drives[i] == r.value
                  && (|| (r.value.kind in FirstChoice
                          && forall j :: i < j < |drives| ==> drives[j].kind !in FirstChoice)
                      || (r.value.kind == Internal
                          && (forall j :: 0 <= j < |drives| ==> drives[j].kind !in FirstChoice)
                          && forall j :: i < j < |drives| ==> drives[j].kind != Internal))
  {
    match LastOfKind(drives, FirstChoice)
    case Some(i) => Some(drives[i])
    case None =>
      match LastOfKind(drives, {Internal})
      case Some(i) => Some(drives[i])
      case None =>
        assert forall j :: 0 <= j < |drives| ==> drives[j].kind !in FirstChoice && drives[j].kind != Internal;
        None
  }

  /** `getStorageDriveByRoot`: the first drive whose root is `root`. */
  function DriveByRoot(drives: seq<StorageDrive>, root: string): (r: Option<StorageDrive>)
    ensures r.None? <==> forall j :: 0 <= j < |drives| ==> drives[j].root != root
    ensures r.Some? ==> exists i :: 0 <= i < |drives| && drives[i] == r.value && r.value.root == root
                                    && forall j :: 0 <= j < i ==> drives[j].root != root
  {
    if drives == [] then None
    else if drives[0].root == root then Some(drives[0])
    else
      var r := DriveByRoot(drives[1..], root);
      assert forall j :: 1 <= j < |drives| ==> drives[j] == drives[1..][j - 1];
      r
  }

  /** The two directories the pre-0.3.3 boolean preference chose between:
      the private internal sketchbook directory and the parent of the
      public DCIM directory. */
  datatype Platform = Platform(internalDir: string, primaryExternalDir: string)

  /** The drive root the preferences name before it is checked against the
      drives: the saved preference; failing that, the directory the legacy
      boolean chose (the private one for "true"); failing that, the default
      drive's root. */
  function SavedRoot(platform: Platform, drives: seq<StorageDrive>, prefs: Prefs): string
    requires DefaultDrive(drives).Some?
  {
    if DrivePref in prefs then prefs[DrivePref]
    else if LegacyInternalPref in prefs then
      if prefs[LegacyInternalPref] == "true" then platform.internalDir else platform.primaryExternalDir
    else DefaultDrive(drives).value.root
  }

  /** A root that names a drive is kept; any other reverts to the default
      drive's root. */
  function Fallback(drives: seq<StorageDrive>, root: string): string
    requires DefaultDrive(drives).Some?
  {
    if DriveByRoot(drives, root).Some? then root else DefaultDrive(drives).value.root
  }

  /** `getSketchbookDrive`: returns the drive together with the updated
      preferences. A missing drive preference is filled in, from the legacy
      boolean when that is set and from the default drive otherwise; a saved
      root that names no drive is reset to the default drive. The boolean
      preference counts as set when its stored value is "true". The default
      drive must exist, which `getStorageLocations` ensures by always
      listing the internal drive. */
  function SketchbookDrive(platform: Platform, drives: seq<StorageDrive>, prefs: Prefs): (res: (StorageDrive, Prefs))
    requires DefaultDrive(drives).Some?
    ensures res.0 in drives
    ensures DrivePref in res.1 && res.1[DrivePref] == res.0.root
    ensures DriveByRoot(drives, res.0.root) == Some(res.0)
    ensures res.1 - {DrivePref} == prefs - {DrivePref}
    ensures DrivePref in prefs && DriveByRoot(drives, prefs[DrivePref]).Some? ==>
              res == (DriveByRoot(drives, prefs[DrivePref]).value, prefs)
    ensures res.1 == prefs[DrivePref := res.0.root]
    ensures res.0.root == Fallback(drives, SavedRoot(platform, drives, prefs))
  {
    var defaultRoot := DefaultDrive(drives).value.root;
    var p1 :=
      if LegacyInternalPref in prefs && DrivePref !in prefs then
        prefs[DrivePref := if prefs[LegacyInternalPref] == "true" then platform.internalDir
                           else platform.primaryExternalDir]
      else if DrivePref !in prefs then prefs[DrivePref := defaultRoot]
      else prefs;
    match DriveByRoot(drives, p1[DrivePref])
    case Some(d) => (d, p1)
    case None => (DriveByRoot(drives, defaultRoot).value, p1[DrivePref := defaultRoot])
  }

  /** Asking again with the updated preferences gives the same drive and
      changes nothing: the fallback settles after one call. */
  lemma {:induction false} SketchbookDriveSettles(platform: Platform, drives: seq<StorageDrive>, prefs: Prefs)
    requires DefaultDrive(drives).Some?
    ensures var (d, p) := SketchbookDrive(platform, drives, prefs);
            SketchbookDrive(platform, drives, p) == (d, p)
  {
  }

  /** A saved root that names no drive (the drive was removed) is replaced
      by the default drive's root, and that drive is returned. */
  lemma {:induction false} StaleRootReverts(platform: Platform, drives: seq<StorageDrive>, prefs: Prefs)
    requires DefaultDrive(drives).Some?
    requires DrivePref in prefs && DriveByRoot(drives, prefs[DrivePref]).None?
    ensures var (d, p) := SketchbookDrive(platform, drives, prefs);
            d.root == DefaultDrive(drives).value.root && p == prefs[DrivePref := d.root]
  {
  }

  /** `getSketchbookFolder` once the drive is known: the drive root itself
      for internal and secondary external drives, and the folder named by
      the sketchbook-location preference below the root otherwise. */
  function FolderOnDrive(drive: StorageDrive, prefs: Prefs): (r: string)
    ensures drive.kind in {Internal, SecondaryExternal} ==> r == drive.root
    ensures drive.kind in FirstChoice ==>
              Components(r) == Components(drive.root) + Components(GetString(prefs, LocationPref, DefaultSketchbookLocation))
  {
    match drive.kind
    case Internal => drive.root
    case SecondaryExternal => drive.root
    case External => Join(drive.root, GetString(prefs, LocationPref, DefaultSketchbookLocation))
    case PrimaryExternal => Join(drive.root, GetString(prefs, LocationPref, DefaultSketchbookLocation))
  }

  /** `getSketchbookFolder`: with the preferences the drive lookup leaves
      behind. */
  function SketchbookFolder(platform: Platform, drives: seq<StorageDrive>, prefs: Prefs): (res: (string, Prefs))
    requires DefaultDrive(drives).Some?
    ensures DrivePref in res.1
    ensures exists d :: d in drives && res.0 == FolderOnDrive(d, prefs) && res.1[DrivePref] == d.root
    ensures res.1 - {DrivePref} == prefs - {DrivePref}
    ensures res.1[DrivePref] == Fallback(drives, SavedRoot(platform, drives, prefs))
    ensures res.0 == FolderOnDrive(DriveByRoot(drives, res.1[DrivePref]).value, prefs)
  {
    var (d, p) := SketchbookDrive(platform, drives, prefs);
    assert GetString(p, LocationPref, DefaultSketchbookLocation) == GetString(prefs, LocationPref, DefaultSketchbookLocation) by {
      assert LocationPref != DrivePref;
      assert LocationPref in p <==> LocationPref in p - {DrivePref};
      assert LocationPref in prefs <==> LocationPref in prefs - {DrivePref};
    }
    (FolderOnDrive(d, p), p)
  }

  /** `getExamplesFolder`: the examples repository once it holds anything,
      the starter examples otherwise. `None` when the repository directory
      cannot be listed: `list()` then returns `null` and `.length` throws. */
  function ExamplesFolder(root: Entry, repoDir: string, starterDir: string): (r: Option<string>)
    ensures r.None? <==> !(Lookup(root, repoDir).Some? && Lookup(root, repoDir).value.isDir && Lookup(root, repoDir).value.listable)
    ensures r.Some? ==> (r.value == repoDir <== Lookup(root, repoDir).value.children != [])
    ensures r.Some? ==> (r.value == starterDir <== Lookup(root, repoDir).value.children == [])
  {
    match Lookup(root, repoDir)
    case Some(e) =>
      if e.isDir && e.listable then Some(if e.children != [] then repoDir else starterDir) else None
    case None => None
  }

  /** The folders a location tag is relative to: the sketchbook folder and
      the examples folder. */
  datatype Folders = Folders(sketchbook: string, examples: string)

  /** `getSketchLocation(sketchPath, sketchLocation)`: `None` (Java's `null`)
      for a temporary sketch; otherwise the path below the location's base
      folder, or the path itself for an external sketch. */
  function SketchFolder(folders: Folders, path: string, location: Locations.SketchLocation): (r: Option<string>)
    ensures r.None? <==> location.IsTemp()
    ensures location.Sketchbook? ==> Components(r.value) == Components(folders.sketchbook) + Components(path)
    ensures location.Example? ==> Components(r.value) == Components(folders.examples) + Components(path)
    ensures location.LibraryExample? ==>
              Components(r.value) == Components(folders.sketchbook) + [LibrariesFolder] + Components(path)
    ensures location.External? ==> r == Some(path)
  {
    match location
    case Sketchbook => Some(Join(folders.sketchbook, path))
    case Example => Some(Join(folders.examples, path))
    case LibraryExample =>
      PiecesWithoutSeparator(LibrariesFolder, '/');
      assert Components(LibrariesFolder) == [LibrariesFolder];
      Some(Join(Join(folders.sketchbook, LibrariesFolder), path))
    case External => Some(path)
    case Temporary => None
  }

}
