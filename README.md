# Launcher backend core, in Dafny

This project models the list and string logic of the Rust backend of a desktop
launcher (`src-tauri/src/lib.rs`). The launcher keeps a registry of `.app`
bundles and opens them. It also reports, from a `ps` snapshot, which of them
are running, and reads the last signal line each companion app writes to a
file. Everything around that logic is left out: the Tauri commands' plumbing,
the file system, the `open` and `ps` subprocesses, JSON and the tray. The
model takes what that plumbing would hand over as inputs.

Modules, one per concern of the source:

- `Text` (text.dfy) models the parts of Rust's `str` the backend uses:
  - ASCII lower-casing and `eq_ignore_ascii_case`;
  - `trim`, using the Unicode White_Space set;
  - `contains`;
  - `lines`;
  - the lexicographic order of `String`.
- `Paths` (paths.dfy) models `Path::file_name`, `file_stem` and `extension` on
  `/`-separated paths. It also models `bundle_name_from_app_path` and the
  extension test of `is_valid_app_bundle_path`.
- `Registry` (registry.dfy) models `sort_and_dedupe_apps`. The method keeps
  the source's loop, which overwrites the first entry with the same path or
  appends a new one, followed by the sort. The module also defines the normal
  form the method is proved to produce.
- `RegistryCommands` (registry_commands.dfy) models `add_registered_app` and
  `remove_registered_app`, with the registry file as an input list.
- `ProcessMatch` (process_match.dfy) models `is_launchable_app_process_line`
  and `is_app_running_in_commands`, plus the unit tests of lib.rs:551-589.
- `Launch` (launch.dfy) models the key-to-bundle `match` of `launch_app`.
- `Running` (running.dfy) models `get_running_apps` and
  `get_running_registered_apps` over a given snapshot.
- `Signals` (signals.dfy) models `read_last_signal_line`. It is a loop over
  the results of `reader.lines()`.

Notes on the semantics:

- Rust compares strings by UTF-8 bytes. The model compares them by characters
  instead, which gives the same order.
- `sort_by` is stable and is modelled as a stable insertion sort. After
  de-duplication no two entries compare equal, so any correct sort gives the
  same list.
- The existence check, `is_dir` and `fs::canonicalize` are parameters of the
  add command. `onDisk` stands for the existence and directory checks.
  `canonical` is `None` when canonicalisation fails; the source then keeps the
  trimmed path.

## Model

| member | source | states |
|---|---|---|
| Text.EqIgnoreCase | src-tauri/src/lib.rs:207 | `eq_ignore_ascii_case` holds exactly when both strings are equal once ASCII-lower-cased |
| Text.TrimSpec | src-tauri/src/lib.rs:134 | `trim` returns the part of the string between white space at either end, and that part neither starts nor ends with white space |
| Text.TrimEmptyIffBlank | src-tauri/src/lib.rs:99 | a trimmed line is empty exactly when every character of the line is white space |
| Text.TrimIdempotent | src-tauri/src/lib.rs:295-298 | trimming an already trimmed string changes nothing, so the stored name is in trimmed form |
| Text.TrimKeepsInnerSlice | src-tauri/src/lib.rs:134 | a stretch of the line that starts and ends with non-white-space survives trimming, at its offset minus what was trimmed |
| Text.ContainsIffOccurs | src-tauri/src/lib.rs:140-144 | the `contains` search succeeds exactly when the pattern is a substring |
| Text.Lines | src-tauri/src/lib.rs:149 | no line that `lines` yields holds a `\n` |
| Text.LinesOfJoinLines | src-tauri/src/lib.rs:149 | `lines` splits `\n`-terminated text back into its lines, for lines without `\n` and without a final `\r` |
| Text.CompareEqualIff | src-tauri/src/lib.rs:216-219 | the string order calls two strings equal exactly when they are the same string |
| Text.CompareAntisymmetric | src-tauri/src/lib.rs:216-219 | swapping the operands of the string order flips the answer |
| Text.CompareTransitive | src-tauri/src/lib.rs:216-219 | the string order is transitive |
| Paths.FileName | src-tauri/src/lib.rs:126-131 | a file name is non-empty, holds no `/`, and is neither `.` nor `..` |
| Paths.FileNameIsLastComponent | src-tauri/src/lib.rs:126-131 | once trailing separators are gone, the file name is the last `/`-separated component of the path; there is none exactly when the path is empty, `.`, `..` or ends in `/..` |
| Paths.LastComponentAfterSlash | src-tauri/src/lib.rs:126-131 | the component after the last `/` of such a path is never empty or `.`, and it is `..` exactly when the path ends in `/..` |
| Paths.SplitAtLastDot | src-tauri/src/lib.rs:126-131 | a name splits at its last dot into a non-empty stem and an extension without a dot; there is no extension exactly when no dot follows the first character, and then the whole name is the stem |
| Paths.BundleNameFromAppPath | src-tauri/src/lib.rs:126-131 | there is a bundle name exactly when the path has a file name; that name is non-empty, holds no `/`, and is a prefix of the file name |
| Paths.BundleNameOfAppBundle | src-tauri/src/lib.rs:126-131 | the bundle name of `<dir>/<name>.app` is `name`, and that path passes the `.app` extension test of lib.rs:172-176 |
| Paths.DerivesBundleNameFromPath | src-tauri/src/lib.rs:591-596 | the bundle name of `/Applications/Companion.app` is `Companion` |
| Registry.CompareAppsFlip | src-tauri/src/lib.rs:215-220 | swapping two entries flips the comparator's answer |
| Registry.InOrderTransitive | src-tauri/src/lib.rs:215-220 | the comparator's order is transitive |
| Registry.DistinctPathsCompareStrictly | src-tauri/src/lib.rs:215-220 | entries whose paths differ ignoring case never compare equal |
| Registry.FindPath | src-tauri/src/lib.rs:205-207 | the search returns the first entry whose path equals the given one ignoring case, or none when no entry has that path |
| Registry.Upsert | src-tauri/src/lib.rs:205-212 | an upsert holds the new entry, keeps every entry with another path in its place, and only appends when the path is new; it keeps paths distinct, and afterwards the new entry is the only one with its path |
| Registry.Dedupe | src-tauri/src/lib.rs:204-213 | the list the loop has built after seeing the input; `DedupeKeepsLastOfEachPath` characterises it |
| Registry.DedupeKeepsLastOfEachPath | src-tauri/src/lib.rs:204-213 | the loop leaves distinct paths, keeps the last input entry for each path and nothing else, and never grows the list |
| Registry.UpsertKeepsLastOfEachPath | src-tauri/src/lib.rs:205-212 | one turn of the loop preserves the invariant of DedupeKeepsLastOfEachPath |
| Registry.DedupeOfUniqueIsIdentity | src-tauri/src/lib.rs:204-213 | a list whose paths are already distinct passes through the loop unchanged |
| Registry.SortApps | src-tauri/src/lib.rs:215-220 | the sort is a permutation of its input |
| Registry.SortAppsSorted | src-tauri/src/lib.rs:215-220 | the sort's output is ordered by lower-cased name, then lower-cased path |
| Registry.SortAppsKeepsUnique | src-tauri/src/lib.rs:215-220 | sorting keeps paths distinct |
| Registry.SortAppsOfSortedIsIdentity | src-tauri/src/lib.rs:215-220 | a list already in order is left as it is |
| Registry.NormalizeApps | src-tauri/src/lib.rs:201-223 | the list `sort_and_dedupe_apps` returns; `NormalizeAppsIsNormalForm` and `SameEntriesSameNormalForm` characterise it |
| Registry.NormalizeAppsIsNormalForm | src-tauri/src/lib.rs:201-223 | the result has distinct paths and is sorted; it is no longer than the input, holds only input entries that come last for their path, and holds all of them |
| Registry.NormalizeAppsOfNormal | src-tauri/src/lib.rs:201-223 | a list with distinct paths that is in order is its own normal form |
| Registry.NormalizeAppsIdempotent | src-tauri/src/lib.rs:201-223 | normalising twice is normalising once |
| Registry.NormalFormStrictlyOrdered | src-tauri/src/lib.rs:215-220 | in the normal form, every entry compares strictly less than every later one |
| Registry.NormalizeAppsOfUniqueKeepsEntries | src-tauri/src/lib.rs:201-223 | a list whose paths are already distinct keeps exactly its entries |
| Registry.SameEntriesSameNormalForm | src-tauri/src/lib.rs:201-223 | two normal lists that hold the same entries are the same list |
| Registry.SortAndDedupeApps | src-tauri/src/lib.rs:201-223 | the loop and the sort produce the normal form of the input, with all its properties |
| Registry.LaterDuplicateWins | src-tauri/src/lib.rs:205-210 | of two entries sharing a path, the later one survives and the earlier is overwritten |
| Registry.DedupeOfThree | src-tauri/src/lib.rs:204-213 | the loop overwrites the earlier of two entries sharing a path in place |
| Registry.SortOfTwo | src-tauri/src/lib.rs:215-220 | two entries out of order are swapped |
| Registry.DedupeScenario | src-tauri/src/lib.rs:597-618 | the unit test: two spellings of the Companion path leave two entries, "Companion Updated" then "Dugout" |
| RegistryCommands.NormalizeAppPath | src-tauri/src/lib.rs:181-199 | an empty trimmed path fails as required; a path that is not an existing `.app` directory fails as an invalid bundle path, naming the trimmed path; otherwise it succeeds, with the canonical path when there is one and the trimmed path when canonicalisation fails |
| RegistryCommands.NewEntry | src-tauri/src/lib.rs:290-302 | path errors from `normalize_app_path` are passed on; the name cannot be derived exactly when the normalised path has no stem; it succeeds exactly when the path is accepted, a stem exists and the chosen name (the given one, else the stem) is not blank; an accepted entry has the normalised path (the canonical path when there is one) and that name trimmed, the trimmed stem when no name is given |
| RegistryCommands.NewEntryOfAppBundle | src-tauri/src/lib.rs:290-302 | registering an existing `<dir>/<bundle>.app` without a name, with canonicalisation leaving it as is, gives the entry named by the trimmed bundle name, or fails with an empty name when that is blank |
| RegistryCommands.RetainOtherPaths | src-tauri/src/lib.rs:331-335 | the filter keeps exactly the entries whose path differs from the argument ignoring case, and keeps paths distinct |
| RegistryCommands.AddedRegistryUpserts | src-tauri/src/lib.rs:310-319 | after the upsert and normalisation, the list is normal; the new entry is its only entry with that path; every entry with another path is kept; nothing else is added |
| RegistryCommands.RemovedRegistryRemoves | src-tauri/src/lib.rs:331-335 | after the filter and normalisation, the list is normal and holds exactly the entries whose path differs ignoring case |
| RegistryCommands.AddRegisteredApp | src-tauri/src/lib.rs:290-322 | a validation error is returned as is; otherwise the command returns the normalised upsert of the new entry into the normalised registry, which has the properties of AddedRegistryUpserts |
| RegistryCommands.RemoveRegisteredApp | src-tauri/src/lib.rs:324-340 | an empty trimmed path is rejected; otherwise the command returns the normalised registry without the trimmed path |
| RegistryCommands.RemoveUndoesAdd | src-tauri/src/lib.rs:290-340 | removing a path just added to a normal registry that lacked it gives the registry back |
| ProcessMatch.BundleSegmentSplit | src-tauri/src/lib.rs:139-140 | only the bundle name in the segment is lower-cased; the rest is the literal `.app/contents/macos/` |
| ProcessMatch.OccursIgnoringTrim | src-tauri/src/lib.rs:134-140 | trimming never hides or creates an occurrence of a pattern with non-white-space ends |
| ProcessMatch.IsLaunchableAppProcessLine | src-tauri/src/lib.rs:133-145 | `is_launchable_app_process_line`; `LaunchableLineIff` characterises it |
| ProcessMatch.LaunchableLineIff | src-tauri/src/lib.rs:133-145 | a line counts exactly when, ignoring ASCII case, it holds `/<bundle>.app/contents/macos/` and does not hold `/backend-sidecar` |
| ProcessMatch.SidecarLineNeverCounts | src-tauri/src/lib.rs:144 | a line naming the sidecar never counts |
| ProcessMatch.SegmentOccurs | src-tauri/src/lib.rs:139-140 | `<dir>/<spelling>.app/Contents/MacOS/<exe>` holds the segment of every bundle name the spelling matches ignoring case |
| ProcessMatch.LaunchedBundleLineCounts | src-tauri/src/lib.rs:133-145 | a bundle's executable line counts wherever the bundle lives and however its name is cased, unless it names the sidecar |
| ProcessMatch.AnyLaunchableIff | src-tauri/src/lib.rs:147-151 | `any` over the lines is true exactly when some line counts |
| ProcessMatch.IsAppRunningInCommands | src-tauri/src/lib.rs:147-151 | `is_app_running_in_commands`; `IsAppRunningInCommandsIff` characterises it |
| ProcessMatch.IsAppRunningInCommandsIff | src-tauri/src/lib.rs:147-151 | a snapshot shows a bundle running exactly when one of its lines counts |
| ProcessMatch.SlashPatternOccursIffPieceStart | src-tauri/src/lib.rs:139-144 | a `/`-led pattern with no other `/` occurs in a path exactly when it starts one of the path's `/`-led pieces |
| ProcessMatch.OtherBundleDoesNotCount | src-tauri/src/lib.rs:139-141 | a path with no piece that starts like the bundle's segment never counts for that bundle |
| ProcessMatch.PiecesCount | src-tauri/src/lib.rs:139-144 | a path whose pieces hold the segment, and none of which starts with `/backend-sidecar`, counts |
| ProcessMatch.SidecarPieceNeverCounts | src-tauri/src/lib.rs:144 | a path with a `/backend-sidecar` piece never counts |
| ProcessMatch.TwoLineSnapshot | src-tauri/src/lib.rs:147-151 | a snapshot of two `\n`-terminated lines shows a bundle running exactly when either line counts |
| ProcessMatch.OneLineSnapshot | src-tauri/src/lib.rs:147-151 | a one-line snapshot shows a bundle running exactly when its line counts |
| ProcessMatch.DetectsAppFromAnyLocation | src-tauri/src/lib.rs:551-555 | the unit test: a Companion dev build under a home directory, with a lower-case bundle directory, counts as Companion |
| ProcessMatch.IgnoresSidecarProcesses | src-tauri/src/lib.rs:557-561 | the unit test: the Dugout sidecar does not count as Dugout |
| ProcessMatch.IgnoresSidecarProcessesWithArguments | src-tauri/src/lib.rs:563-567 | the unit test: nor does the sidecar with arguments |
| ProcessMatch.DugoutAppLine | src-tauri/src/lib.rs:569-573 | the pieces of the Dugout executable line spell the test's literal |
| ProcessMatch.DoesNotCrossMatchOtherBundles | src-tauri/src/lib.rs:569-573 | the unit test, on its own literal: `/Applications/Dugout.app/Contents/MacOS/app` does not count as Companion |
| ProcessMatch.CompanionDevBuildIsNotDugout | src-tauri/src/lib.rs:575-583 | the Companion dev build line does not count as Dugout |
| ProcessMatch.RunningStateUsesMatchingNonSidecarProcessesOnly | src-tauri/src/lib.rs:575-583 | the unit test: the two-line snapshot shows Companion running and Dugout not running |
| ProcessMatch.ConsoleAppLine | src-tauri/src/lib.rs:585-589 | the pieces of the HM Admin Console line spell the test's literal |
| ProcessMatch.SupportsBundleNamesWithSpaces | src-tauri/src/lib.rs:585-589 | the unit test, on its own literal: "HM Admin Console" is found running in the one-line snapshot `/Applications/HM Admin Console.app/Contents/MacOS/app` |
| Launch.TargetOf | src-tauri/src/lib.rs:26-31 | exactly the keys `companion`, `dugout` and `hmm` map to a bundle, and it is one of the three known bundles; any other key is reported back as unsupported |
| Launch.TargetOfInjective | src-tauri/src/lib.rs:26-31 | no two keys open the same bundle |
| Launch.TargetOfOnto | src-tauri/src/lib.rs:26-31 | every known bundle is opened by some key |
| Launch.ExpectedPathNamesTarget | src-tauri/src/lib.rs:43-46 | the `/Applications/<bundle>.app` path named in the failure message passes the `.app` test, and its bundle name is the mapped bundle again |
| Running.GetRunningApps | src-tauri/src/lib.rs:472-481 | each flag tests the snapshot for the bundle that `launch_app` opens for the same key |
| Running.GetRunningRegisteredApps | src-tauri/src/lib.rs:376-390 | there is one answer per path, in order, carrying the path; it is running exactly when a bundle name can be derived and the snapshot shows that bundle running |
| Running.PathRunning | src-tauri/src/lib.rs:383-385 | a registered path runs when its bundle name can be derived and the snapshot shows that bundle; `RegisteredBundleRunning` gives the lines that make it so |
| Running.RegisteredBundleRunning | src-tauri/src/lib.rs:376-390 | a registered `<dir>/<name>.app` shows as running when the snapshot lists its executable, from any directory and in any casing, and the line does not name the sidecar |
| Running.RunningAppsOfTestSnapshot | src-tauri/src/lib.rs:575-583 | for the unit test's snapshot, `get_running_apps` reports Companion running and Dugout not running |
| Signals.LastNonBlank | src-tauri/src/lib.rs:95-104 | the result is none exactly when every line is blank; otherwise it is a non-blank line of the file |
| Signals.LastNonBlankIsLastOfNonBlank | src-tauri/src/lib.rs:95-104 | the search from the end agrees with keeping the non-blank lines and taking the last one |
| Signals.TrailingBlankLinesIgnored | src-tauri/src/lib.rs:95-104 | blank lines at the end of the file do not change the result |
| Signals.BlankIffWhitespace | src-tauri/src/lib.rs:99 | a line is blank exactly when it is all white space |
| Signals.ReadLastSignalLine | src-tauri/src/lib.rs:88-105 | the result is none when the file is missing, cannot be opened, or has a line that fails to read; otherwise it is the last non-blank line, untrimmed |

## Left out

- The registry file is the list `read_registered_apps` parsed; a missing file is the empty list. The commands normalise it first, as that function does.
- File system access is not modelled: the registry path, reading and writing `apps.json`, `create_dir_all`, and the signal bus directory. The registry is an input list, and the command's result is the list it would write. Read, parse and write errors of the registry are not modelled.
- JSON is not modelled. This covers `serde` deserialisation of the registry and `parse_signal_from_line`, which also involves the `f64` signal value. `read_signal_file` and `read_cci_signals` are left out with them.
- Subprocesses are not modelled. `open` in `launch_app` and `launch_registered_app`, and the `ps` call of `read_process_commands_snapshot`, are left out; the snapshot text is an input.
- `normalize_app_path` has no UTF-8 failure branch ("App path must be valid UTF-8."). Dafny strings are always valid text. `bundle_name_from_app_path` likewise has no `to_str` failure.
- `scan_installed_apps` and `collect_apps_from_directory` list a directory and are left out. Their result goes through `sort_and_dedupe_apps`, which is modelled.
- The tray, the window, autostart and `run()` are framework wiring and are left out.
- The frontend's display-order synchronizer is not part of this model. No source for it is included here.
- `Paths.FileName` models `Path::file_name` only for `/`-separated paths: trailing separators and a trailing `.` component are ignored. Repeated inner separators are not normalised.
- The unit tests on the sidecar lines and on the Companion dev build line are stated on the line's `/`-led pieces joined together, not on the test's literal. The pieces spell the literal text. For the two short lines, `DugoutAppLine` and `ConsoleAppLine` prove that the pieces equal the literal.
- `read_last_signal_line` receives the lines `reader.lines()` yields as one entry each, `None` for a line that fails to read. Splitting the file's bytes into lines is the same `lines` semantics modelled in `Text.Lines`, and is not repeated there.
