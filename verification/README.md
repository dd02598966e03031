# APDE sketch bookkeeping, modelled in Dafny

APDE is a Processing IDE for Android. Its application class `APDE` holds a small
set of rules about where sketches live, how the IDE finds them and how it
remembers recently opened ones. This project models those rules as pure
functions and proves properties of them:

- **Location tags** (`locations.dfy`). A `SketchLocation` is one of five tags:
  sketchbook, example, library example, external or temporary. The model covers
  the string codec (`toString`/`fromString`) and the `isExample`/`isTemp`
  classification.
- **Sketch metadata** (`meta.dfy`). A `SketchMeta` is a location plus a path
  relative to that location. The model covers the path split at the last `/`
  (`getPathPrefix`, `getName`, `getParent`) and the `location,path` codec.
- **File system and `validSketch`** (`filetree.dfy`). The file system is a
  finite tree of entries. Each entry has a name, a directory flag, whether
  `listFiles()` yields a listing, and its children. Paths are resolved by
  their non-empty `/` elements. A folder is a sketch when it is a listable
  directory with an entry whose extension, taken from its last `.`, equals
  `.pde` ignoring case.
- **Discovery** (`discovery.dfy`). `listSketches` is a depth-bounded walk that
  honours an ignore list and never descends into a sketch folder.
  `containsSketches` is its existence variant.
- **Storage** (`storage.dfy`). The model covers:
  - choosing the default drive and looking a drive up by root;
  - the preference fallback of `getSketchbookDrive`, on a string-to-string
    preference map;
  - the sketchbook folder on a drive, and the examples folder;
  - the folder a location tag plus a relative path stands for
    (`getSketchLocation(String, SketchLocation)`).
- **Recent sketches** (`recent.dfy`).
  - `putRecentSketch` writes the list under the preference `recent`, one
    `location,path,` line per sketch, newest first.
  - `getRecentSketches` splits that text at newlines. It visits lines
    `min(n - 1, 20)` down to 0, so at most 21 lines. It drops lines with
    fewer than two comma parts and sketches that do not resolve to a valid
    sketch folder. Each accepted sketch is moved to the end of the list, and
    the list is reversed at the end.
- **The open sketch** (`app.dfy`): what `selectSketch` records, and the
  application-level `isExample`/`isTemp`, which fail before the first
  selection.

Java's `String.split` with a one-character pattern is modelled exactly
(`text.dfy`):

- without a separator the result is the whole string, even when it is empty;
- otherwise the result is every piece between separators, with trailing empty
  pieces dropped.

The read-back of the recent list depends on this.

Java's `null` returns and the `NullPointerException`s the code runs into
become `Option` values:

- `listSketches` returns `None` when it must descend into a directory that
  has no listing.
- `getSketchLocation` returns `None` for a temporary sketch.
- `getExamplesFolder` returns `None` when the repository folder cannot be
  listed.

Two source hazards are preconditions instead:

- **Recent-list data.** Every line `getRecentSketches` inspects that has two
  comma parts or more must start with a known tag other than `temporary`.
  For any other tag, `fromString` yields `null` and the `switch` in
  `getSketchLocation` throws. For `temporary`, `getSketchLocation` returns
  `null` and `validSketch` throws on it. Text written by `putRecentSketch`
  for non-temporary sketches whose path has no newline always meets this
  condition (`Recent.Prepend`). A path with a newline breaks its line in two,
  and the second half can start with an unknown tag.
- **Default drive.** When neither the drive preference nor the legacy
  boolean preference is set (`APDE.java:552-558`), or when the root looked at
  names no drive (`APDE.java:562-573`), `getSketchbookDrive` dereferences the
  result of `getDefaultSketchbookStorageDrive`, which is `null` if no drive
  qualifies. The model requires a default drive on every call, also when the
  root looked at is found and the default is never used. `getStorageLocations` always
  lists the internal drive, so this holds.

Parsing a recent line builds the sketch from the first two comma parts, and a
third part is ignored. The walk is proved exact against a reference
definition of "a sketch path". That requires sibling names to be distinct,
as they are on a real file system.

The duplicate-removal loop in `getRecentSketches` skips the element after each
one it removes (`j++` after `remove(j)`). The list it runs on never holds a
repetition, so nothing is ever skipped that should have been removed
(`Recent.RemoveSkippingNoDup`). The loop as written is what `Recent.Scan` runs.

## Model

| member | source | states |
|---|---|---|
| `Locations.SketchLocation.ToString` | APDE/src/main/java/com/calsignlabs/apde/APDE.java:97-113 | each tag is non-empty and free of commas and newlines; `Locations.TagRoundTrip` shows the five are distinct and read back |
| `Locations.SketchLocation.IsExample` | APDE/src/main/java/com/calsignlabs/apde/APDE.java:115-123 | the `switch` as written; `Locations.Classification` states which locations it holds for |
| `Locations.SketchLocation.IsTemp` | APDE/src/main/java/com/calsignlabs/apde/APDE.java:125-131 | the `switch` as written; `Locations.Classification` states which locations it holds for |
| `Locations.FromString` | APDE/src/main/java/com/calsignlabs/apde/APDE.java:147-161 | `None` exactly when no location has the string as its tag; otherwise a location whose tag is the string |
| `Locations.FirstWithTag` | APDE/src/main/java/com/calsignlabs/apde/APDE.java:147-161 | the chain of `equals` tests finds a location of the sequence whose tag is the string, and finds none exactly when no tag matches |
| `Locations.TagRoundTrip` | APDE/src/main/java/com/calsignlabs/apde/APDE.java:96-161 | `fromString(l.toString()) == l` for every location, so the five tags are distinct |
| `Locations.Classification` | APDE/src/main/java/com/calsignlabs/apde/APDE.java:115-131 | `isExample` holds exactly for EXAMPLE and LIBRARY_EXAMPLE, `isTemp` exactly for TEMPORARY, and never both |
| `Application.SelectSketch` | APDE/src/main/java/com/calsignlabs/apde/APDE.java:213-215 | after selecting a sketch, its path is recorded and `isExample`/`isTemp` answer for its location |
| `Application.UnselectedFails` | APDE/src/main/java/com/calsignlabs/apde/APDE.java:164-167 | before the first selection both tests fail, since the recorded location is `null` |
| `Application.Session.IsExample` | APDE/src/main/java/com/calsignlabs/apde/APDE.java:1067-1072 | fails (`None`) exactly when no sketch has been selected; otherwise agrees with the open sketch's location's `isExample` |
| `Application.Session.IsTemp` | APDE/src/main/java/com/calsignlabs/apde/APDE.java:1074-1079 | fails (`None`) exactly when no sketch has been selected; otherwise agrees with the open sketch's location's `isTemp` |
| `Meta.SketchMeta.PathPrefix` | APDE/src/main/java/com/calsignlabs/apde/APDE.java:1178-1182 | the prefix is a prefix of the path, empty or ending in `/`, with no `/` after it in the path |
| `Meta.SketchMeta.Name` | APDE/src/main/java/com/calsignlabs/apde/APDE.java:1184-1188 | for a path not ending in `/`, prefix followed by name is the path and the name has no `/`; a path ending in `/`, or with no `/`, is its own name |
| `Meta.SketchMeta.Parent` | APDE/src/main/java/com/calsignlabs/apde/APDE.java:1190-1194 | with a `/` in the path, the parent followed by `/` is the prefix; without one, parent and prefix are both empty |
| `Meta.SketchMeta.ToString` | APDE/src/main/java/com/calsignlabs/apde/APDE.java:1207-1210 | the location tag, a comma and the path, as written; `Meta.MetaRoundTrip` shows `fromString` reads it back |
| `Meta.FromString` | APDE/src/main/java/com/calsignlabs/apde/APDE.java:1212-1220 | `None` exactly when the comma split does not give two parts; a parsed path is non-empty and has no comma |
| `Meta.MetaRoundTrip` | APDE/src/main/java/com/calsignlabs/apde/APDE.java:1197-1220 | parsing `m.toString()` gives back `m`'s location and path when the path is non-empty and has no comma |
| `Text.LastIndexOf` | APDE/src/main/java/com/calsignlabs/apde/APDE.java:352-358 | -1 exactly when the character is absent; otherwise a position holding it with no later occurrence |
| `Text.Split` | APDE/src/main/java/com/calsignlabs/apde/APDE.java:1103-1110 | every part is free of the separator |
| `Text.SplitAvoids` | APDE/src/main/java/com/calsignlabs/apde/APDE.java:1103-1110 | a character that does not occur in the string occurs in no part of its split |
| `Text.DropTrailingEmpty` | APDE/src/main/java/com/calsignlabs/apde/APDE.java:1102-1106 | the kept parts are a prefix of the pieces, the last kept one is non-empty, and every dropped piece is empty |
| `Text.GluePieces` | APDE/src/main/java/com/calsignlabs/apde/APDE.java:1102-1106 | joining the pieces with the separator gives back the string |
| `Text.PiecesAppend` | APDE/src/main/java/com/calsignlabs/apde/APDE.java:1094-1106 | the pieces of `a + sep + b` are the pieces of `a` followed by those of `b` |
| `Text.SplitHead` | APDE/src/main/java/com/calsignlabs/apde/APDE.java:1106-1117 | a non-empty, separator-free head followed by the separator is the first part of the split |
| `FileTree.Join` | APDE/src/main/java/com/calsignlabs/apde/APDE.java:452-468 | the path elements of `new File(parent, child)` are the parent's followed by the child's |
| `FileTree.FindNamedChild` | APDE/src/main/java/com/calsignlabs/apde/APDE.java:452-468 | with distinct sibling names, looking up a child's name finds that child |
| `FileTree.HasPdeExtension` | APDE/src/main/java/com/calsignlabs/apde/APDE.java:352-362 | a name with no `.` never has the `.pde` extension |
| `FileTree.PdeSuffix` | APDE/src/main/java/com/calsignlabs/apde/APDE.java:352-362 | the extension from the last `.` equals `.pde` ignoring case exactly when the name ends in `.pde` in any mix of cases |
| `FileTree.ValidSketch` | APDE/src/main/java/com/calsignlabs/apde/APDE.java:345-366 | the listing loop on an existing directory, as written; `FileTree.ValidSketchAtMeans` and `FileTree.PdeSuffix` characterise it |
| `FileTree.ValidSketchAt` | APDE/src/main/java/com/calsignlabs/apde/APDE.java:339-344 | `validSketch` on the file a path names: false when nothing exists there or it is not a directory; characterised by `FileTree.ValidSketchAtMeans` |
| `FileTree.Lookup` | APDE/src/main/java/com/calsignlabs/apde/APDE.java:339-344 | the empty path names nothing (`new File("")` does not exist); any other path is followed element by element from the root |
| `FileTree.ValidSketchAtMeans` | APDE/src/main/java/com/calsignlabs/apde/APDE.java:339-366 | `validSketch` holds exactly when the path is non-empty and names a listable directory with an entry ending in `.pde`, any case |
| `Discovery.ListSketches` | APDE/src/main/java/com/calsignlabs/apde/APDE.java:244-280 | a non-directory or ignored directory gives nothing; a sketch folder gives exactly itself; depth 0 never reports anything below the directory |
| `Discovery.ListSketchesExact` | APDE/src/main/java/com/calsignlabs/apde/APDE.java:244-280 | the walk reports exactly the reference sketch paths: through non-ignored, non-sketch directories, within the depth, to a non-ignored sketch folder |
| `Discovery.ListChildren` | APDE/src/main/java/com/calsignlabs/apde/APDE.java:272-276 | the loop over the listing as written; `Discovery.ListChildrenExact`, `Discovery.ListChildrenNoDup` and `Discovery.ListChildrenTotal` characterise it |
| `Discovery.ListChildrenExact` | APDE/src/main/java/com/calsignlabs/apde/APDE.java:266-276 | the loop over the listing reports exactly the sketch paths through the sub-directories from the given position on |
| `Discovery.SketchPathSound` | APDE/src/main/java/com/calsignlabs/apde/APDE.java:244-280 | every reported folder exists and is a valid sketch, no folder between it and the start is one, and a non-negative depth bounds its distance |
| `Discovery.ListSketchesNoDup` | APDE/src/main/java/com/calsignlabs/apde/APDE.java:244-280 | the walk never reports a folder twice |
| `Discovery.ListChildrenNoDup` | APDE/src/main/java/com/calsignlabs/apde/APDE.java:266-276 | the loop over the listing never reports a folder twice |
| `Discovery.ListSketchesTotal` | APDE/src/main/java/com/calsignlabs/apde/APDE.java:262-276 | when every directory has a listing the walk never throws |
| `Discovery.ListChildrenTotal` | APDE/src/main/java/com/calsignlabs/apde/APDE.java:266-276 | when every directory has a listing the loop over the listing never throws |
| `Discovery.ContainsSketches` | APDE/src/main/java/com/calsignlabs/apde/APDE.java:296-333 | the recursion as written; `Discovery.ContainsIffListed` relates it to `listSketches`, and `Discovery.ContainsSketchesIgnoresTopOnly` to its ignore list |
| `Discovery.AnySubfolderHasSketches` | APDE/src/main/java/com/calsignlabs/apde/APDE.java:321-330 | the subfolder loop as written; `Discovery.ContainsIffListedChildren` relates it to the matching loop of `listSketches` |
| `Discovery.ContainsSketchesIgnoresTopOnly` | APDE/src/main/java/com/calsignlabs/apde/APDE.java:296-333 | the ignore list only decides about the starting directory, since the recursive call passes none |
| `Discovery.ContainsIffListed` | APDE/src/main/java/com/calsignlabs/apde/APDE.java:286-333 | with no ignore list, `containsSketches` holds exactly when an unbounded `listSketches` reports something |
| `Discovery.ContainsIffListedChildren` | APDE/src/main/java/com/calsignlabs/apde/APDE.java:319-330 | the subfolder loop of `containsSketches` succeeds exactly when the matching loop of `listSketches` reports something |
| `Storage.LastOfKind` | APDE/src/main/java/com/calsignlabs/apde/APDE.java:607-622 | the index of a drive of the given kinds with none of them after it; `None` exactly when there is no such drive |
| `Storage.DefaultDrive` | APDE/src/main/java/com/calsignlabs/apde/APDE.java:607-622 | the last EXTERNAL or PRIMARY_EXTERNAL drive, else the last INTERNAL one; `None` exactly when every drive is SECONDARY_EXTERNAL |
| `Storage.DriveByRoot` | APDE/src/main/java/com/calsignlabs/apde/APDE.java:624-632 | the first drive with that root; `None` exactly when no drive has it |
| `Storage.SketchbookDrive` | APDE/src/main/java/com/calsignlabs/apde/APDE.java:532-576 | the root looked at is the saved preference, else the legacy choice (the private directory for "true", the parent of DCIM otherwise), else the default drive's root; if it names a drive, the first drive with that root is returned, otherwise the default drive's root is used; the preference then holds the returned root and nothing else changes |
| `Storage.StaleRootReverts` | APDE/src/main/java/com/calsignlabs/apde/APDE.java:560-573 | a saved root that names no drive is replaced by the default drive's root, and that drive is returned |
| `Storage.SketchbookDriveSettles` | APDE/src/main/java/com/calsignlabs/apde/APDE.java:532-576 | asking again with the updated preferences gives the same drive and changes nothing |
| `Storage.FolderOnDrive` | APDE/src/main/java/com/calsignlabs/apde/APDE.java:514-530 | INTERNAL and SECONDARY_EXTERNAL drives give the root; EXTERNAL and PRIMARY_EXTERNAL give the root's elements followed by those of the location preference (default `Sketchbook`) |
| `Storage.SketchbookFolder` | APDE/src/main/java/com/calsignlabs/apde/APDE.java:514-530 | the folder on the first drive with the root the drive lookup settles on (the default drive's when the saved root names none), which the drive preference records; the other preferences are unchanged |
| `Storage.ExamplesFolder` | APDE/src/main/java/com/calsignlabs/apde/APDE.java:699-716 | the repository when it has entries, the starter examples when it is empty; `None` exactly when the repository cannot be listed |
| `Storage.SketchFolder` | APDE/src/main/java/com/calsignlabs/apde/APDE.java:452-468 | `None` exactly for a temporary sketch; otherwise the path's elements below the sketchbook, the examples folder or the sketchbook's `libraries` folder, or the path itself for an external sketch |
| `Lists.RemoveAll` | APDE/src/main/java/com/calsignlabs/apde/APDE.java:1124-1129 | every kept element was there and differs from the removed one, and every other element is kept |
| `Lists.Dedup` | APDE/src/main/java/com/calsignlabs/apde/APDE.java:1109-1135 | no repetitions, and the same elements as the input in both directions |
| `Lists.Reverse` | APDE/src/main/java/com/calsignlabs/apde/APDE.java:1134-1135 | position `i` of the result holds position `n - 1 - i` of the input |
| `Lists.DedupOrder` | APDE/src/main/java/com/calsignlabs/apde/APDE.java:1109-1135 | the first-occurrence list is ordered by first occurrence |
| `Lists.DedupRemoveAll` | APDE/src/main/java/com/calsignlabs/apde/APDE.java:1124-1131 | deduplicating and then removing an element is the same as removing it first |
| `Lists.ReverseReverse` | APDE/src/main/java/com/calsignlabs/apde/APDE.java:1134-1135 | reversing twice gives the list back |
| `Recent.Lines` | APDE/src/main/java/com/calsignlabs/apde/APDE.java:1102-1103 | no stored line contains a newline |
| `Recent.Inspected` | APDE/src/main/java/com/calsignlabs/apde/APDE.java:1109 | exactly lines 0 to `min(n - 1, 20)`, the first 21 lines or all of them when there are fewer |
| `Recent.Readable` | APDE/src/main/java/com/calsignlabs/apde/APDE.java:1110-1122 | a line the loop gets through without an exception: fewer than two comma parts, or a first part naming a location other than `temporary` |
| `Recent.Resolves` | APDE/src/main/java/com/calsignlabs/apde/APDE.java:1119-1122 | `validSketch` of the folder a non-temporary sketch names; `Recent.EmptyExternalNeverResolves` shows the empty external path never does |
| `Recent.EmptyExternalNeverResolves` | APDE/src/main/java/com/calsignlabs/apde/APDE.java:339-343 | an external sketch with an empty path is `new File("")`, which does not exist, so it never resolves |
| `Recent.Candidate` | APDE/src/main/java/com/calsignlabs/apde/APDE.java:1106-1117 | a parsed sketch has a non-temporary location and a comma-free path, which is newline-free when the line is |
| `Recent.ValidEntries` | APDE/src/main/java/com/calsignlabs/apde/APDE.java:1109-1122 | every accepted sketch passes the validity test and is the candidate of some line |
| `Recent.ValidEntriesComplete` | APDE/src/main/java/com/calsignlabs/apde/APDE.java:1119-1131 | every candidate that passes the test is among the accepted sketches |
| `Recent.RemoveSkipping` | APDE/src/main/java/com/calsignlabs/apde/APDE.java:1125-1129 | the removal loop as written, skipping the element after each removal; `Recent.RemoveSkippingNoDup` shows when that removes every copy |
| `Recent.RemoveSkippingNoDup` | APDE/src/main/java/com/calsignlabs/apde/APDE.java:1124-1129 | on a list without repetitions the skipping removal loop removes every copy |
| `Recent.MoveToEnd` | APDE/src/main/java/com/calsignlabs/apde/APDE.java:1124-1131 | removing a sketch from the reversed first-occurrence list and appending it gives the reversed first-occurrence list with the sketch in front |
| `Recent.Step` | APDE/src/main/java/com/calsignlabs/apde/APDE.java:1110-1131 | one pass of the loop body as written; `Recent.StepIsDedup` states the invariant it keeps |
| `Recent.Scan` | APDE/src/main/java/com/calsignlabs/apde/APDE.java:1109-1132 | the loop from a given line down to line 0, as written; `Recent.ScanIsDedup` states its invariant |
| `Recent.StepIsDedup` | APDE/src/main/java/com/calsignlabs/apde/APDE.java:1110-1131 | one pass of the loop body keeps the loop invariant |
| `Recent.ScanIsDedup` | APDE/src/main/java/com/calsignlabs/apde/APDE.java:1109-1132 | loop invariant: the list built is the reversed first-occurrence list of the sketches accepted so far |
| `Recent.FullScanIsDedup` | APDE/src/main/java/com/calsignlabs/apde/APDE.java:1109-1135 | running the loop from the last inspected line down to the first and reversing the result gives the first-occurrence list of the accepted sketches |
| `Recent.Collect` | APDE/src/main/java/com/calsignlabs/apde/APDE.java:1109-1137 | the loop and the final reverse give the first-occurrence list of the accepted sketches, with no repetitions |
| `Recent.ParseRecent` | APDE/src/main/java/com/calsignlabs/apde/APDE.java:1101-1138 | the first-occurrence list of the accepted sketches of the first 21 lines: no repetitions, at most 21 entries, each valid, non-temporary and free of commas and newlines |
| `Recent.NewestFirst` | APDE/src/main/java/com/calsignlabs/apde/APDE.java:1101-1138 | each sketch sits at its newest occurrence and the list is ordered newest first |
| `Recent.GetRecentSketches` | APDE/src/main/java/com/calsignlabs/apde/APDE.java:1101-1138 | no two equal entries, at most 21 of them, every one resolving to a valid sketch folder |
| `Recent.Line` | APDE/src/main/java/com/calsignlabs/apde/APDE.java:1095 | the `location,path,` line written for one sketch; `Recent.LineRoundTrip` shows how it reads back |
| `Recent.SerializeRecent` | APDE/src/main/java/com/calsignlabs/apde/APDE.java:1092-1096 | the text the loop builds, as written; `Recent.SerializedLines` shows it splits back into one line per sketch |
| `Recent.SerializedLines` | APDE/src/main/java/com/calsignlabs/apde/APDE.java:1092-1103 | splitting the written text at newlines gives one `location,path,` line per sketch |
| `Recent.LineParts` | APDE/src/main/java/com/calsignlabs/apde/APDE.java:1095-1106 | a written line splits at commas into tag and path, or into the tag alone when the path is empty |
| `Recent.LineReadable` | APDE/src/main/java/com/calsignlabs/apde/APDE.java:1095-1117 | the written line of a non-temporary sketch can be read without an exception, whatever its path |
| `Recent.LineRoundTrip` | APDE/src/main/java/com/calsignlabs/apde/APDE.java:1095-1117 | a written line reads back as its sketch, or as nothing when the path is empty |
| `Recent.WithPathNoDup` | APDE/src/main/java/com/calsignlabs/apde/APDE.java:1095-1117 | dropping sketches with an empty path keeps a list free of repetitions |
| `Recent.WrittenReadable` | APDE/src/main/java/com/calsignlabs/apde/APDE.java:1094-1117 | every line written for a list of non-temporary sketches can be read without an exception |
| `Recent.WrittenCandidate` | APDE/src/main/java/com/calsignlabs/apde/APDE.java:1095-1117 | a written line in front of readable lines is readable and reads back as its sketch, or as nothing when the path is empty, in front of what the other lines read as |
| `Recent.WrittenCandidates` | APDE/src/main/java/com/calsignlabs/apde/APDE.java:1095-1117 | every written line is readable and parses back to its sketch, except that an empty path gives no sketch |
| `Recent.ValidEntriesOfWritten` | APDE/src/main/java/com/calsignlabs/apde/APDE.java:1109-1122 | when every written sketch passes the test, exactly those with a path are accepted |
| `Recent.WrittenWellFormed` | APDE/src/main/java/com/calsignlabs/apde/APDE.java:1081-1099 | text written for non-temporary sketches without newlines can be read again |
| `Recent.WrittenAsRead` | APDE/src/main/java/com/calsignlabs/apde/APDE.java:1092-1117 | the text written for a non-empty list of storable sketches is readable, and its first 21 lines read back as the first 21 sketches, an empty path reading as nothing |
| `Recent.FrontWellFormed` | APDE/src/main/java/com/calsignlabs/apde/APDE.java:1081-1098 | putting a non-temporary sketch with a newline-free path in front of storable sketches gives readable text |
| `Recent.Prepend` | APDE/src/main/java/com/calsignlabs/apde/APDE.java:1081-1099 | the stored text stays readable when the new location is not temporary and the path has no newline |
| `Recent.PutRecentSketch` | APDE/src/main/java/com/calsignlabs/apde/APDE.java:1081-1099 | only the `recent` preference changes, and it holds the new sketch's line followed by the current list |
| `Recent.ReadBack` | APDE/src/main/java/com/calsignlabs/apde/APDE.java:1081-1138 | reading back the text written for a new sketch and a current list gives the new sketch first, then the first 20 old entries with a path, without their copies of the new one |
| `Recent.PutThenGet` | APDE/src/main/java/com/calsignlabs/apde/APDE.java:1081-1138 | after storing a valid sketch with a non-empty path free of commas and newlines, `getRecentSketches` lists it first, followed by the earlier entries (at most 20) without it |

## Left out

- `StockPreferenceFragment.java`: preference-screen glue with no rules of its own.
- Examples repository sync (`initExamplesRepo`, `updateExamplesRepo`, `redownloadExamplesNow`): network checks, threads, git and dialogs.
- `getAvailableSpace`: `StatFs` and floating-point formatting. A drive's free-space text is carried as given.
- `getStorageLocations`: Android volume enumeration. The drive list is an input, and so are the private internal directory and the primary external directory (`Storage.Platform`).
- `getStarterExamplesFolder`, `getExamplesRepoFolder` and the private directories behind them: platform paths, taken as inputs to `Storage.ExamplesFolder`. `getLibrariesFolder` is modelled inside `Storage.SketchFolder` as the sketchbook folder plus `libraries`.
- `copyFile`, `deleteFile`, `moveFolder`, `readAssetFile`, `initProcessingPrefs`: file I/O with side effects.
- `rebuildToolList`, `loadTool`, `rebuildLibraryList`, `getManifest`, `appVersionCode`: reflection and types that are not part of this model.
- Editor and activity accessors, `setSketchName`, and the user-interface work in `selectSketch`. Only the recorded path and location are modelled (`Application.SelectSketch`).
- `SketchLocation.toReadableString`: Android string resources.
- `listSketchContainingFolders`, `listRecentSketches`: they build user-interface items, and their sort order depends on `FileNavigatorAdapter`, which is not part of this model.
- The no-argument `getSketchLocation()`: the same `switch` as the two-argument form (`Storage.SketchFolder`) applied to the open sketch's path and location.
- For an inspected recent line with two comma parts or more, `getSketchLocation` calls `getSketchbookFolder` when the tag is `sketchbook`, directly or through `getLibrariesFolder` when it is `libraryExample`, and `getExamplesFolder` when it is `example`; an `external` line calls neither. `getSketchbookFolder` may write the drive preference. The model computes the folders once and passes them in (`Recent.Context`). `Storage.SketchbookDriveSettles` shows that a second computation gives the same drive and changes nothing.
- Preference writes are committed at once in the source. The model returns the updated map instead. The error message printed when a saved drive is missing is not modelled.
- `Recent.GetRecentSketches`: requires well-formed stored text (see above). The source throws on a line with an unknown or `temporary` tag, and the model does not claim such lines are skipped.
- `Storage.SketchbookDrive`: requires that a default drive exists on every call. The source only needs one when neither the drive preference nor the legacy boolean preference is set, or when the root looked at names no drive, and dereferences `null` then.
- `StorageDriveType.title`: display text for the settings screen, with no rules of its own.
- `Storage.Folders`: the examples folder `getSketchLocation` uses is given as a plain string. When the examples repository cannot be listed, `getExamplesFolder` throws (`Storage.ExamplesFolder` returns `None` for that case). For an `example` line, that exception inside `getRecentSketches` is therefore not modelled.
- The legacy boolean preference `internal_storage_sketchbook` is read as set when its stored value is the string `true`. Typed Android preferences are not modelled.
- `java.io.File` normalisation is modelled as dropping empty path elements. `.` and `..` are not interpreted, and relative paths resolve from the file-system root, the working directory of an Android process. The empty path names nothing, as `new File("")` does not exist (`FileTree.Lookup`). Drive roots are compared as strings, as `getAbsolutePath().equals` does for absolute roots.
- `equalsIgnoreCase(".pde")` is modelled with ASCII case folding. For this target it accepts the same names: the characters outside ASCII that Java folds to an ASCII letter (the Kelvin sign, the long s, the dotless i) fold to none of `.`, `p`, `d`, `e`. The model is not a general `equalsIgnoreCase`.
- Strings are sequences of Unicode scalar values, not UTF-16 code units. Splitting at `/`, `,` and newline and finding the last `.` cut the same pieces in both.
- `listSketches` returns `File` objects. The model reports each one as the names leading to it from the starting directory.
