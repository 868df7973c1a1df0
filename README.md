# tvadplayer: the playback logic of an Android TV kiosk player, in Dafny

The app finds a USB drive and looks for a video folder on it. It plays the
playable files there one after another, forever. It moves to the next file
when one ends or fails. A remote-control key flips the picture between 0° and
90°. Almost all of `MainActivity.kt` is glue around Android storage, ExoPlayer
and preferences. This project models the four pieces of sequential logic
inside that glue, with the platform objects replaced by plain records:

- **Storage locator** (`StorageLocator`): picks the first removable volume,
  in enumeration order, whose directory exists and is readable. Failing that
  it picks the internal path `/storage/emulated/0/` if it exists. Otherwise
  it finds nothing. An exception while querying the volumes also means
  nothing is found.
- **Media scanner** (`MediaScanner`, helpers in `FileNames`): checks the
  sub-folders `video`, `Video`, `VIDEO`, `Videos`, `VIDEOS` in that order and
  uses the first one that exists, is a directory and is readable. If none
  does, it uses the drive's root. From that listing it keeps regular files
  with length > 0 whose lower-cased extension is one of nine. The result is
  the priority group (mp4, mkv, m4v, webm) sorted by name, then the other
  group (avi, mov, wmv, flv, 3gp) sorted by name.
- **Playback loop** (`PlaybackLoop`, and the class `Activity.MainActivity`):
  a fresh non-empty scan sets the cursor to 0 and plays. Three events each
  add exactly one to the cursor and post a delayed replay: the end of the
  stream, a player error, and an exception while launching the file. The
  replay resets a cursor at or past the end to 0 just before it indexes the
  list.
- **Rotation toggle** (`Rotation`, and the same class): `switchSide` steps
  the index with Kotlin's truncating `%` and saves it. Loading resets a
  stored value of 2 or more to 0.

Inputs that stand for platform services:
- a `VolumeQuery` stands for the storage manager;
- a `Root` (the root's listing plus its sub-folders by exact name) and a
  `mount` function from path to `Root` stand for the file system;
- the `Preferences` class stands for the preference store;
- a `launchFails` flag stands for "the player threw while being handed a
  file";
- the handler is a count of posted callbacks, and `RunPendingCallback` runs
  one of them.

Two behaviours of the code are worth noting; the model follows the code:
- The code does not wrap the cursor at the moment it is advanced. It wraps
  lazily, in `playCurrentVideo`, with a `>=` test. So the cursor can sit one past the
  end (or more, if an error and an end are both reported for one file) while
  a replay is pending.
- The load guard is not a clamp of every out-of-range rotation value. Only
  values of 2 or more are reset; negative values are kept.

## Model

| member | source | states |
|---|---|---|
| `FileNames.Extension` | app/src/main/java/com/kardos/tvads/MainActivity.kt:232 | the extension is the text after the last '.', holds no '.', and is empty when the name has no '.' |
| `FileNames.LowerChar` | app/src/main/java/com/kardos/tvads/MainActivity.kt:232 | no upper-case ASCII letter survives, and the result is the character itself or the same letter in the other case |
| `FileNames.Lower` | app/src/main/java/com/kardos/tvads/MainActivity.kt:232 | lower-casing keeps the length, leaves no upper-case ASCII letter, and changes each character at most to the same letter in the other case |
| `FileNames.LowerIgnoresCase` | app/src/main/java/com/kardos/tvads/MainActivity.kt:232 | two strings lower-case to the same string exactly when they agree position by position up to ASCII case |
| `FileNames.NameLe` | app/src/main/java/com/kardos/tvads/MainActivity.kt:239 | `a` sorts before or equal to `b` exactly when `a` is a prefix of `b` or the first differing character of `a` is smaller (the `compareTo` order) |
| `FileNames.NameLeReflexive` | app/src/main/java/com/kardos/tvads/MainActivity.kt:239 | every name sorts before or equal to itself |
| `FileNames.NameLeTotal` | app/src/main/java/com/kardos/tvads/MainActivity.kt:239 | any two names are comparable |
| `FileNames.NameLeAntisymmetric` | app/src/main/java/com/kardos/tvads/MainActivity.kt:239 | two names that each sort before or equal to the other are equal |
| `FileNames.NameLeTransitive` | app/src/main/java/com/kardos/tvads/MainActivity.kt:239 | the name order is transitive |
| `MediaScanner.ExtensionOf` | app/src/main/java/com/kardos/tvads/MainActivity.kt:232 | the extension compared is free of '.' and of upper-case ASCII letters, and is empty for a name without '.' |
| `MediaScanner.Playable` | app/src/main/java/com/kardos/tvads/MainActivity.kt:231-233 | the validator: a regular file of length > 0 whose lower-cased extension is one of the nine; a name without '.' never passes |
| `MediaScanner.IsPriority` | app/src/main/java/com/kardos/tvads/MainActivity.kt:234 | the group test: the lower-cased extension is mp4, mkv, m4v or webm; each of these is accepted, so a non-empty priority file is playable |
| `MediaScanner.PlayableIgnoresCase` | app/src/main/java/com/kardos/tvads/MainActivity.kt:231-234 | entries of the same kind and length whose extensions agree up to ASCII case ("CLIP.MP4", "clip.mp4") are accepted alike and land in the same group |
| `MediaScanner.Filter` | app/src/main/java/com/kardos/tvads/MainActivity.kt:230-237 | the kept entries are exactly the listing's entries that pass the test, each as many times as the listing holds it, none that fail it, and no more than the listing holds |
| `MediaScanner.GroupsPartitionPlayable` | app/src/main/java/com/kardos/tvads/MainActivity.kt:233-235 | the priority list and the other list together hold, with multiplicity, exactly the playable entries |
| `MediaScanner.SortByName` | app/src/main/java/com/kardos/tvads/MainActivity.kt:239 | `sortedBy { it.name }` returns a permutation of its input in ascending name order |
| `MediaScanner.SortStable` | app/src/main/java/com/kardos/tvads/MainActivity.kt:239 | `sortedBy` is stable: entries with equal names keep their listing order |
| `MediaScanner.InsertSorted` | app/src/main/java/com/kardos/tvads/MainActivity.kt:239 | inserting into a name-sorted list keeps it sorted |
| `MediaScanner.VideoOrder` | app/src/main/java/com/kardos/tvads/MainActivity.kt:230-239 | the playback order is a permutation of the qualifying entries: none dropped or duplicated, same count |
| `MediaScanner.VideoOrderMembership` | app/src/main/java/com/kardos/tvads/MainActivity.kt:224-237 | an entry is in the result exactly when it is in the listing, is a regular file, has length > 0 and has one of the nine extensions |
| `MediaScanner.VideoOrderPriorityFirst` | app/src/main/java/com/kardos/tvads/MainActivity.kt:233-239 | every mp4/mkv/m4v/webm file comes before every avi/mov/wmv/flv/3gp file |
| `MediaScanner.VideoOrderGroupsSorted` | app/src/main/java/com/kardos/tvads/MainActivity.kt:239 | within each group the result is in ascending name order |
| `MediaScanner.Entries` | app/src/main/java/com/kardos/tvads/MainActivity.kt:230 | `listFiles()?`: a listing the platform could not read (null) contributes no entries; otherwise all of them |
| `MediaScanner.FindVideoFiles` | app/src/main/java/com/kardos/tvads/MainActivity.kt:222-240 | the loop's two lists, each sorted and then concatenated, give the priority-first order; its members are exactly the playable entries; a null listing gives nothing |
| `MediaScanner.Child` | app/src/main/java/com/kardos/tvads/MainActivity.kt:214 | `File(usb, it)`: the sub-folder of that exact name; a name with no such sub-folder does not exist and is never usable |
| `MediaScanner.Usable` | app/src/main/java/com/kardos/tvads/MainActivity.kt:215 | the test `exists() && isDirectory && canRead()`: a candidate failing any one of the three is skipped |
| `MediaScanner.FirstUsable` | app/src/main/java/com/kardos/tvads/MainActivity.kt:213-217 | a chosen folder is one of the candidates and exists, is a directory and is readable |
| `MediaScanner.FirstUsablePicksFirst` | app/src/main/java/com/kardos/tvads/MainActivity.kt:210-217 | the first usable candidate in list order is the one chosen |
| `MediaScanner.FirstUsableNone` | app/src/main/java/com/kardos/tvads/MainActivity.kt:213-219 | no folder is chosen exactly when no candidate is usable |
| `MediaScanner.VideoFolder` | app/src/main/java/com/kardos/tvads/MainActivity.kt:210-220 | a chosen folder is one of the five candidates and is usable; none is chosen exactly when no candidate is usable |
| `MediaScanner.FindVideoFolder` | app/src/main/java/com/kardos/tvads/MainActivity.kt:210-220 | the early-return loop over "video", "Video", "VIDEO", "Videos", "VIDEOS" returns the first usable one, or null |
| `MediaScanner.SearchListing` | app/src/main/java/com/kardos/tvads/MainActivity.kt:196-197 | the listing scanned is that of the first usable candidate folder when there is one, and the root's own listing when there is none |
| `MediaScanner.CapitalisedFolderChosen` | app/src/main/java/com/kardos/tvads/MainActivity.kt:196-199 | with a usable "Video" and no usable "video", the scan reads "Video"'s listing, not the root's |
| `MediaScanner.RootFallback` | app/src/main/java/com/kardos/tvads/MainActivity.kt:196-197 | with no usable candidate folder the scan reads the root's own listing |
| `StorageLocator.Qualifies` | app/src/main/java/com/kardos/tvads/MainActivity.kt:170-172 | the volume test: removable, with a non-null directory that exists and is readable; a non-removable volume never qualifies |
| `StorageLocator.FirstQualifying` | app/src/main/java/com/kardos/tvads/MainActivity.kt:163-177 | the index found is the first removable volume with a present, readable directory; none found means no volume qualifies |
| `StorageLocator.Fallback` | app/src/main/java/com/kardos/tvads/MainActivity.kt:180-186 | the internal path `/storage/emulated/0/` is chosen exactly when it exists; otherwise null |
| `StorageLocator.SelectVolume` | app/src/main/java/com/kardos/tvads/MainActivity.kt:159-192 | a failed query finds nothing; a null volume list falls back to the internal path if it exists; otherwise the first qualifying removable volume is returned and no later one, then the internal path if it exists, then nothing |
| `StorageLocator.QualifyingVolumeWins` | app/src/main/java/com/kardos/tvads/MainActivity.kt:170-183 | one qualifying volume anywhere means a removable directory at or before it is chosen, never the internal path |
| `StorageLocator.FindUsbDevice` | app/src/main/java/com/kardos/tvads/MainActivity.kt:159-192 | the loop with early return, the fallback, and the catch agree with the selection rule; an exception gives none |
| `Rotation.TruncRem` | app/src/main/java/com/kardos/tvads/MainActivity.kt:101 | Kotlin's `%`: the dividend is the quotient truncated toward zero times the divisor plus the remainder; the remainder lies strictly inside (-b, b), is never negative for a non-negative dividend and never positive for a negative one |
| `Rotation.Toggle` | app/src/main/java/com/kardos/tvads/MainActivity.kt:101 | from 0 or 1 the step gives the other one; from any index of -1 or more it lands in the table |
| `Rotation.ToggleCycles` | app/src/main/java/com/kardos/tvads/MainActivity.kt:100-104 | on {0,1} the step stays in {0,1}, changes the index, and two steps restore it |
| `Rotation.LoadedRotation` | app/src/main/java/com/kardos/tvads/MainActivity.kt:137-142 | a stored 0 or 1 is kept, 2 or more becomes 0, and a negative value is kept unguarded (outside the table) |
| `Rotation.ToggleSurvivesRestart` | app/src/main/java/com/kardos/tvads/MainActivity.kt:130-142 | an index saved after a toggle is loaded back unchanged in a new session |
| `Rotation.Preferences.GetInt` | app/src/main/java/com/kardos/tvads/MainActivity.kt:137 | `getInt(key, default)` gives the stored value for a written key and the default for any other |
| `Rotation.Preferences.PutInt` | app/src/main/java/com/kardos/tvads/MainActivity.kt:132 | writing a key replaces only that key's value, and reading it back gives the value |
| `PlaybackLoop.WrapIndex` | app/src/main/java/com/kardos/tvads/MainActivity.kt:244-247 | the index accessed is always in [0, size); it equals the cursor when the cursor is in range and is 0 when the cursor is at or past the end |
| `PlaybackLoop.PlayedAt` | app/src/main/java/com/kardos/tvads/MainActivity.kt:242-266 | the index played by a launch is inside the list, and the first size launches play indexes 0, 1, … in order |
| `PlaybackLoop.PlayedAtCycles` | app/src/main/java/com/kardos/tvads/MainActivity.kt:242-266 | with one advance per launch, the k-th launch after a fresh scan plays file k mod size |
| `PlaybackLoop.LastThenFirst` | app/src/main/java/com/kardos/tvads/MainActivity.kt:244-247 | the launch after the last file plays index 0 |
| `PlaybackLoop.EveryFileInTurn` | app/src/main/java/com/kardos/tvads/MainActivity.kt:242-266 | each run of size launches plays every file once, in list order |
| `Activity.MainActivity.constructor` | app/src/main/java/com/kardos/tvads/MainActivity.kt:31-38 | the cursor and rotation start at 0, no files, nothing posted |
| `Activity.MainActivity.LoadRotationPreference` | app/src/main/java/com/kardos/tvads/MainActivity.kt:135-143 | the rotation becomes the stored value (default 0), reset to 0 at or past the table size; nothing else changes |
| `Activity.MainActivity.SaveRotationPreference` | app/src/main/java/com/kardos/tvads/MainActivity.kt:130-133 | the store maps the rotation key to the current index and is otherwise unchanged |
| `Activity.MainActivity.SwitchSide` | app/src/main/java/com/kardos/tvads/MainActivity.kt:100-104 | the index takes one truncating step mod 2 and is saved under its key; playback state is untouched |
| `Activity.MainActivity.PlayNextVideo` | app/src/main/java/com/kardos/tvads/MainActivity.kt:261-266 | the cursor goes up by exactly one and one delayed replay is posted |
| `Activity.MainActivity.PlayCurrentVideo` | app/src/main/java/com/kardos/tvads/MainActivity.kt:242-259 | the index accessed is the cursor wrapped to 0 at or past the end, so it is in bounds; a launch exception advances exactly as `PlayNextVideo` does |
| `Activity.MainActivity.OnPlayerError` | app/src/main/java/com/kardos/tvads/MainActivity.kt:68-71 | a player error advances the cursor by one and posts one replay, the same as an end of stream |
| `Activity.MainActivity.OnPlaybackStateChanged` | app/src/main/java/com/kardos/tvads/MainActivity.kt:73-77 | only the ended state advances (by one, one replay posted); other states change nothing |
| `Activity.MainActivity.RunPendingCallback` | app/src/main/java/com/kardos/tvads/MainActivity.kt:263-265 | a posted replay plays the wrapped cursor, always inside a non-empty list, and is consumed; a throwing launch posts the next one |
| `Activity.MainActivity.PlayFromUsbDevice` | app/src/main/java/com/kardos/tvads/MainActivity.kt:194-208 | the list becomes the ordered scan of the video folder or the root; an empty list plays nothing; otherwise index 0 is played |
| `Activity.MainActivity.FindAndPlayFromUsb` | app/src/main/java/com/kardos/tvads/MainActivity.kt:147-157 | no selected directory leaves the state alone; otherwise the selected directory's scan is loaded; an empty scan plays nothing, leaves the cursor alone and posts nothing; a non-empty one plays index 0, leaving the cursor at 0 (1 and one posted replay if the launch throws) |
| `Activity.MainActivity.PlayEndedRounds` | app/src/main/java/com/kardos/tvads/MainActivity.kt:242-266 | after the first launch, k rounds of an end of stream followed by the posted replay leave the cursor on the file of launch k and show it, with nothing left pending |
| `Activity.PlayThroughEnds` | app/src/main/java/com/kardos/tvads/MainActivity.kt:194-266 | a fresh activity that scans a non-empty folder and then sees k ends of stream shows the file `PlayedAt` predicts for launch k |

## Left out

- Lifecycle and views: `onCreate`, `onStop`, `onDestroy`, the layout, the
  player view settings and every `Log` call. This is platform plumbing with
  no stateable logic. In particular the model does not show that `onStop`
  and `onDestroy` cancel the posted callbacks.
- ExoPlayer: `setMediaItem`, `prepare`, `play`, `release` and building the
  MediaItem/Uri are foreign calls. They appear only as the `launchFails`
  flag and as the listener events.
- Timing: the 1000 ms delay of `postDelayed` is wall-clock time. A posted
  callback is a count, and `RunPendingCallback` is "the delay has passed".
- `applyRotation`, the matrix transformation, the `playerView.rotation`
  fallback and the float angle table are left out. They are float graphics
  and foreign calls; rotation is the integer index only. So the crash that
  `rotations[rotationState]` would raise for a negative stored index is not
  modelled. `Rotation.LoadedRotation` only records that such a value passes
  the load guard.
- `onKeyDown`: three key codes (menu, red, d-pad centre) all call
  `switchSide`, and other codes go to the default handler. It is a trivial
  dispatch.
- Kotlin's `lowercase()` is Unicode-aware; `FileNames.Lower` maps only
  ASCII letters. Kotlin would, for example, also accept a name whose
  extension is "m" + KELVIN SIGN + "v" (such as `clip.m\u212Av`) as mkv; the
  model does not.
- FileNames.NameLe: `String.compareTo` compares UTF-16 code units, while
  `NameLe` compares Unicode scalar values in the same left-to-right,
  prefix-first way. The two orders agree except for names that mix characters
  above U+FFFF with characters in U+E000–U+FFFF: Kotlin sees the former as
  surrogates (0xD800–0xDFFF) and sorts them lower, the model sorts them
  higher.
- Integer widths: `currentVideoIndex` and `rotationState` are 32-bit `Int`s,
  and `length()` is a `Long`. The model uses unbounded integers. The cursor
  never gets further past the end than the number of pending callbacks
  (a conjunct of `MainActivity.Valid`, kept by every method), and a stored
  `Int.MAX_VALUE` is reset to 0 on load, so neither wraps in the code.
- The file system is taken as given. The root's sub-folder map, its
  listing, and `mount` are independent inputs; the model does not make the
  listing agree with the sub-folders.
- Exceptions in `findUsbDevice` are one `QueryFailed` input. The code
  catches every exception in the whole lookup and returns null, so where the
  exception came from does not change the result.
- Activity.MainActivity.OnPlayerError: its requires (a non-empty list) is
  what the player guarantees, since it reports only on a file that
  `playCurrentVideo` handed to it. The same holds for
  `OnPlaybackStateChanged`.
- Activity.MainActivity.PlayFromUsbDevice: requires that no callback is
  pending, because the code calls it only once, from `onCreate`, before
  anything is posted.
- app/build.gradle.kts is build configuration and has no logic to model.
