# Synology image cleaner — a Dafny model of its core

The synology-image-cleaner finds photos that appear both in a backup folder and
in a sorted folder on a Synology NAS. A review screen then lets the user ignore
each duplicate or delete the backup copy into the share's recycle bin, with
undo. This project models the logic of that core in Dafny and proves
properties of the model:

- the folder-path entry field with its autocompletion, as a state machine;
- the backend path helpers: volume inference, sub-path test, directory listing
  and suggestions, path validation;
- the duplicate scan: grouping `find` output by lower-cased file name, and the
  cross product of backup and sorted files that share a name;
- reading Storage Analyzer duplicate reports (the `dup.db` tables and the CSV
  export) and classifying each group into a backup copy and a sorted copy;
- the review actions on a review table, the set of ignored pairs and an undo
  stack;
- the recycle-bin rules: detection, moving a file in, restoring it;
- the state machines of the inbox screen, the settings sidebar and the
  placeholder review screen.

Everything the programs do over SSH is a `Nas` value (`shell.dfy`): whether the
connection is up, and a function from each command to its result. A model
operation takes that value and returns what the program returns. Where the
order of commands matters, it also returns the list of commands it issued.
Answers to HTTP requests made by the screens are parameters of the event that
delivers them. Each asynchronous handler is split into the event that starts it
and the event that delivers its response. The response is applied to the
values the handler captured when it started.

Files, one module each:

| file | module | models |
|---|---|---|
| `strings.dfy` | `Strings` | ASCII lower-casing, stripping, `os.path` basename/dirname/join, split and join |
| `seqs.dfy` | `Seqs` | order-preserving filter, prefix truncation, sorting by a key |
| `shell.dfy` | `Shell` | `Option`, command results, the commands, the `Nas` oracle |
| `path_input.dfy` | `PathInput` | `frontend/src/components/PathInput.jsx` |
| `path_utils.dfy` | `PathUtils` | `backend/path_utils.py` |
| `duplicate_scanner.dfy` | `DuplicateScanner` | `backend/duplicate_scanner.py` |
| `report_parser.dfy` | `ReportParser` | `backend/report_parser.py` |
| `recycle_bin.dfy` | `RecycleBin` | `backend/recycle_bin.py` |
| `review_actions.dfy` | `ReviewActions` | `backend/review_actions.py` |
| `inbox_screen.dfy` | `InboxScreen` | `frontend/src/screens/InboxScreen.jsx` |
| `settings_sidebar.dfy` | `SettingsSidebar` | `frontend/src/components/SettingsSidebar.jsx` |
| `review_screen.dfy` | `ReviewScreen` | `frontend/src/screens/ReviewScreen.jsx` |

Behaviour of the code as written that the model keeps, and proves where it is
worth stating:

- `delete_duplicate` computes the share root as `'/' + '/'.join(path.split('/')[:3])`.
  For an absolute path that gives a doubled leading slash (`//volume1/share`),
  which the recycle-bin probe and the stored locations then carry
  (`ReviewActions.ShareRootOfAbsolutePath`).
- A delete records "not reviewed, no action" as the previous state of the row,
  whatever the row held. Undo restores exactly that
  (`ReviewActions.UndoAfterDelete`).
- In the settings sidebar, an edit that leaves both paths holding something
  besides white space keeps the previous pair-check result. The field's
  validity flag is also kept until its own validation answers. Until both
  checks answer, Save stays enabled exactly as before the edit. A blank edit,
  such as a single space, is stored but makes the field report itself invalid
  at once, which clears the pair result and blocks Save
  (`SettingsSidebar.Sidebar.ChangeBackupPath`).
- A sidebar path field cannot be emptied by editing. Every non-empty value is
  written under the field's storage key, so an emptied field takes the stored
  path back at once; it also reports itself invalid, which clears the pair
  result and blocks Save until the path is validated again
  (`SettingsSidebar.Sidebar.ChangeBackupPath`). Only the recycle bin's clear
  button, which removes the key first, empties a field
  (`SettingsSidebar.Sidebar.ClearRecycleBin`).
  A pair answer that arrives after a path was emptied is stored as it comes
  (`SettingsSidebar.Sidebar.ReceivePair`).
- In the path field, the suggestion timer and the validation timer share one
  slot, and the validation effect runs after the suggestion effect. A value
  that does not end in `/` therefore never gets suggestions from a timer
  (`PathInput.PathField.EffectsOnce`).

## Model

| member | source | states |
|---|---|---|
| PathInput.TypedPart | frontend/src/components/PathInput.jsx:19-20 | the typed part is a `/`-free suffix of the value |
| PathInput.TypedPartWholeTail | frontend/src/components/PathInput.jsx:19-20 | the typed part is the whole tail after the last `/`: either the whole value or preceded by a `/` |
| PathInput.TypedPartEmpty | frontend/src/components/PathInput.jsx:19-25 | the typed part is empty exactly when the value is empty or ends with `/` |
| PathInput.ClientFilter | frontend/src/components/PathInput.jsx:18-32 | a value ending in `/` or empty keeps every suggestion; otherwise exactly the suggestions whose last segment starts with the typed part, ignoring case, in order |
| PathInput.ClientFilterAppend | frontend/src/components/PathInput.jsx:28-31 | the filter keeps input order: filtering a concatenation concatenates the filtered parts |
| PathInput.ClientFilterIdempotent | frontend/src/components/PathInput.jsx:78-85 | the memo's filter applied to a response the handler already filtered changes nothing |
| PathInput.WithTrailingSep | frontend/src/components/PathInput.jsx:208 | the accepted value ends with `/`, extends the suggestion by at most one character and equals it when it already ended with `/` |
| PathInput.InlineCompletion | frontend/src/components/PathInput.jsx:90-107 | the completion is non-empty exactly when the value does not end with `/` and the filtered list has a non-empty first row; a non-empty completion ends with `/` and is the first row from the value's length on |
| PathInput.InlineAcceptAgreesWithSuggestion | frontend/src/components/PathInput.jsx:222-227 | when the value is a literal prefix of the best match, accepting the completion yields the best match ending in `/` |
| PathInput.InlineCompletionOfWholeMatch | frontend/src/components/PathInput.jsx:97-100 | a value that spells out the whole best match is completed with a lone `/` |
| PathInput.InlineAcceptKeepsTypedCase | frontend/src/components/PathInput.jsx:79-100 | when the typed part matches only ignoring case, accepting keeps the typed letters and so differs from the suggestion |
| PathInput.RowSplitRebuildsSuggestion | frontend/src/components/PathInput.jsx:412-442 | for a value with `/` that is a literal prefix of the row, the typed part is the value and typed + remaining is the row |
| PathInput.SplitPrefix | frontend/src/components/PathInput.jsx:424-436 | cutting a literal prefix into parent and typed name passes both case-insensitive prefix tests and rebuilds the row |
| PathInput.RowSplitWithoutSeparator | frontend/src/components/PathInput.jsx:425 | with no `/` in the value, the row's typed part starts with a `/` the user never typed |
| PathInput.ArrowDownIndex | frontend/src/components/PathInput.jsx:258-260 | ArrowDown moves one row down, stays on the last row, keeps a highlight at or past the end where it is, never goes below zero, and stays in range when it started in range |
| PathInput.ArrowUpIndex | frontend/src/components/PathInput.jsx:268-270 | ArrowUp moves one row up, from the first row to -1 |
| PathInput.ArrowDownThenUp | frontend/src/components/PathInput.jsx:256-272 | ArrowUp after ArrowDown returns to the starting row unless it was the last one |
| PathInput.PathField.constructor | frontend/src/components/PathInput.jsx:35-49 | mounting refills an empty value from the cache, sends the immediate request for a value ending in `/`, and sets the validation timer for a non-blank value |
| PathInput.PathField.EffectsOnce | frontend/src/components/PathInput.jsx:45-186 | one pass of the effects: the value is cached, an empty value clears the suggestions, a blank value is reported invalid at once, and the single timer slot ends up holding the validation timer |
| PathInput.PathField.SaveEffect | frontend/src/components/PathInput.jsx:45-49 | every non-empty value is written under the storage key |
| PathInput.PathField.FetchEffect | frontend/src/components/PathInput.jsx:52-132 | an empty value clears suggestions, dropdown and completion with no request; a value ending in `/` is requested at once; anything else sets the 200 ms timer |
| PathInput.PathField.ValidateEffect | frontend/src/components/PathInput.jsx:135-186 | a blank value is reported invalid with no error and no request; anything else sets the 500 ms timer and keeps the previous verdict |
| PathInput.PathField.RunEffects | frontend/src/components/PathInput.jsx:35-186 | a render with a new value runs the effects, refilling an emptied value from the cache whenever the cache holds one |
| PathInput.PathField.ChangeValue | frontend/src/components/PathInput.jsx:35-186 | the effects run only when the value changes, with the refill and reset rules above; a blank new value reports the field invalid, a non-blank one keeps the verdict until its own check answers |
| PathInput.PathField.ParentRender | frontend/src/components/PathInput.jsx:134-186 | a parent render with the same value re-runs only the validation effect: a fresh 500 ms check of the value is armed, and a blank field reports itself invalid again |
| PathInput.PathField.Type | frontend/src/components/PathInput.jsx:337-340 | typing hands the value to the parent and clears the highlighted row |
| PathInput.PathField.Focus | frontend/src/components/PathInput.jsx:341-345 | focus opens the dropdown when there are suggestions or the value ends with `/` |
| PathInput.PathField.FireTimer | frontend/src/components/PathInput.jsx:149-150 | the pending validation timer sends its request and marks the field as validating |
| PathInput.PathField.ReceiveSuggestions | frontend/src/components/PathInput.jsx:67-118 | a non-empty answer is filtered and shown with its inline completion; an empty answer closes the dropdown; a failure clears suggestions and completion but leaves the dropdown flag |
| PathInput.PathField.ReceiveValidation | frontend/src/components/PathInput.jsx:149-179 | a checked answer sets the verdict and reports it; a differing normalised path overwrites the value, keeps that verdict unless it is blank, and (when it differs from the current value) re-arms the validation timer and requests suggestions as a new value does; a failure reports 'Failed to validate path'; validating ends either way |
| PathInput.PathField.AcceptSuggestion | frontend/src/components/PathInput.jsx:206-220 | accepting a suggestion sets the value to it ending in `/`, hides the dropdown and clears the highlight |
| PathInput.PathField.AcceptInline | frontend/src/components/PathInput.jsx:222-243 | the completion is appended and cleared when there is one, else the first filtered row is accepted, else nothing happens |
| PathInput.PathField.ClickRow | frontend/src/components/PathInput.jsx:448 | clicking a row accepts that row |
| PathInput.PathField.HoverRow | frontend/src/components/PathInput.jsx:464-469 | hovering a row highlights it |
| PathInput.PathField.MouseDownOutside | frontend/src/components/PathInput.jsx:189-204 | an outside press hides the dropdown and clears the highlight but keeps value and completion |
| PathInput.PathField.KeyDown | frontend/src/components/PathInput.jsx:245-284 | Tab is consumed exactly when there is a completion or a row and then leaves a value ending in `/`; the arrows move the highlight and open the dropdown; Enter accepts the highlighted row and fails on a stale index; Escape also clears the completion; ArrowRight accepts only a completion |
| PathInput.PathField.ArrowKey | frontend/src/components/PathInput.jsx:256-272 | with rows shown, ArrowDown moves the highlight down but not past the last row, ArrowUp moves it up (to -1 at the top), both open the dropdown and leave the value; without rows nothing changes |
| PathInput.PathField.EnterKey | frontend/src/components/PathInput.jsx:273-275 | with a highlighted row, Enter sets the value to that row with a trailing `/` and closes the dropdown; a highlight past the rows fails with nothing changed; with no highlight or no rows nothing changes |
| PathInput.PathField.TabKey | frontend/src/components/PathInput.jsx:247-254 | Tab is consumed exactly when there is a completion or a row, and then leaves a value ending in `/`; otherwise the value is kept and the default action runs |
| PathInput.PathField.ArrowRightKey | frontend/src/components/PathInput.jsx:280-283 | with a ghost completion, ArrowRight is consumed, appends it to the value and clears it; without one nothing changes |
| PathInput.PathField.EscapeKey | frontend/src/components/PathInput.jsx:276-279 | Escape closes the dropdown and clears the highlight and the inline completion |
| PathUtils.InferVolumePath | backend/path_utils.py:120-138 | empty and `/volume` paths are kept; other absolute paths get `/volume1` in front; relative ones `/volume1/`; every non-empty result starts with `/volume` and ends with the input |
| PathUtils.InferVolumePathIdempotent | backend/path_utils.py:120-138 | inferring twice is inferring once |
| PathUtils.Components | backend/path_utils.py:182-183 | the components of a path are non-empty, not `.` and contain no `/` |
| PathUtils.NormPath | backend/path_utils.py:182-183 | a normalised path is never empty and is absolute exactly when the input is |
| PathUtils.NormPathShape | backend/path_utils.py:182-183 | a normalised path has no doubled leading `/` and no trailing `/` except the root |
| PathUtils.ComponentsOfNormPath | backend/path_utils.py:182-183 | normalising keeps the path's components |
| PathUtils.NormPathIdempotent | backend/path_utils.py:182-183 | normalising is idempotent |
| PathUtils.IsSubpath | backend/path_utils.py:175-186 | an empty argument gives false; true implies the normalised parent is a prefix of the normalised child |
| PathUtils.IsSubpathReflexive | backend/path_utils.py:186 | every non-empty path lies below itself |
| PathUtils.NormPathRoot | backend/path_utils.py:182-183 | the root normalises to itself |
| PathUtils.IsSubpathOfRoot | backend/path_utils.py:175-186 | below `/` lies only what normalises to `/` |
| PathUtils.IsSubpathTransitive | backend/path_utils.py:175-186 | lying below is transitive |
| PathUtils.IsSubpathOfNormalised | backend/path_utils.py:182-186 | normalising the arguments first does not change the answer |
| PathUtils.TrimDir | backend/path_utils.py:18-20 | trimming trailing `/` leaves a non-empty path that is `/` or has no trailing `/`, a prefix of the input |
| PathUtils.TrimDirIdempotent | backend/path_utils.py:18-20 | trimming twice is trimming once |
| PathUtils.StripAll | backend/path_utils.py:33-36 | every line is stripped, one for one |
| PathUtils.StripAllSnoc | backend/path_utils.py:33-36 | stripping one more line appends its stripped form |
| PathUtils.Children | backend/path_utils.py:32-45 | a listed entry is exactly a stripped output line that is non-blank, not the parent and whose basename does not start with `@` |
| PathUtils.ListingEntries | backend/path_utils.py:8-45 | every listed entry is such a child of the trimmed parent; nothing is listed without a connection |
| PathUtils.ListDirectoriesUnder | backend/path_utils.py:8-45 | the method returns the listing |
| PathUtils.ChildrenOf | backend/path_utils.py:32-45 | the loop keeps the accepted stripped lines in order |
| PathUtils.CheckLine | backend/path_utils.py:34-43 | a line is kept, stripped, exactly when it is not blank, not the parent and its base name does not start with `@` |
| PathUtils.ChildrenEntries | backend/path_utils.py:33-43 | every child taken from the output is non-blank, not the parent, has no leading `@` in its name and is already stripped |
| PathUtils.VolumesShape | backend/path_utils.py:98-118 | none without a connection; otherwise the common volumes both probes confirm, in order, or `/volume1`, `/volume2` when none is confirmed |
| PathUtils.VolumesBounded | backend/path_utils.py:106-118 | never more than the five common volumes |
| PathUtils.SuggestVolumes | backend/path_utils.py:98-118 | the loop returns the volumes so described |
| PathUtils.NameMatchesFacts | backend/path_utils.py:78-91 | the kept folders are listed children whose lower-cased name starts with the typed name, sorted by that name; there are as many as match up to twenty, and every matching folder left out sorts after every kept one |
| PathUtils.VolumeMatchesFacts | backend/path_utils.py:92-96 | a volume is suggested exactly when its lower-cased path contains the lower-cased partial (within the first twenty) |
| PathUtils.SuggestionsBounded | backend/path_utils.py:47-96 | never more than twenty suggestions |
| PathUtils.SuggestionsForFolder | backend/path_utils.py:57-63 | a partial ending in `/` gets the first twenty children of the trimmed folder |
| PathUtils.SuggestionsForName | backend/path_utils.py:66-91 | a partial with `/` gets children of its parent whose name starts with the typed name, sorted; as many as match up to twenty, the twenty smallest names when more match |
| PathUtils.SuggestionsForVolume | backend/path_utils.py:92-96 | a partial without `/` gets volumes containing it ignoring case |
| PathUtils.SuggestionsOfVolume | backend/path_utils.py:92-96 | that case is the volume match over `suggest_volumes` |
| PathUtils.SuggestPaths | backend/path_utils.py:47-96 | the method returns the suggestions so described |
| PathUtils.NamesStartingWith | backend/path_utils.py:79-87 | the loop keeps the folders whose lower-cased name starts with the typed name, in order |
| PathUtils.ValidatePath | backend/path_utils.py:140-173 | valid exactly when there is no message; a blank path is refused before the connection check; valid implies both probes succeeded |
| PathUtils.ReadabilityAnswerIgnored | backend/path_utils.py:166-171 | an existing folder the probe reports "notreadable" is accepted as valid |
| PathUtils.ValidatePathIntended | backend/path_utils.py:166-171 | the intended check: valid implies the written check's verdict and no "notreadable" answer, and otherwise agrees with it |
| PathUtils.IntendedReadability | backend/path_utils.py:166-171 | with the intended check an existing folder is valid exactly when the probe answers "readable" |
| DuplicateScanner.Extension | backend/duplicate_scanner.py:17 | the extension is empty or a dot-led suffix of the name without `/` and without another dot |
| DuplicateScanner.ImageExtensionsShape | backend/duplicate_scanner.py:13 | each image extension is a dot followed by at least one character, with no other dot and no `/` |
| DuplicateScanner.ImageByExtension | backend/duplicate_scanner.py:15-18 | a stem with a character other than a dot followed by an image extension is an image |
| DuplicateScanner.IsImageFileIgnoresCase | backend/duplicate_scanner.py:17 | the image test ignores case |
| DuplicateScanner.HiddenFileIsNotImage | backend/duplicate_scanner.py:17 | a name whose only dot is its first character is not an image (`.jpg` itself included) |
| DuplicateScanner.GroupByStep | backend/duplicate_scanner.py:55-81 | one more output line is appended under its key when kept, and ignored otherwise |
| DuplicateScanner.AppendWellFormed | backend/duplicate_scanner.py:79-81 | appending keeps each key listed once |
| DuplicateScanner.GroupByWellFormed | backend/duplicate_scanner.py:51-81 | the grouping lists each key once |
| DuplicateScanner.GetAppend | backend/duplicate_scanner.py:79-81 | appending adds the path to its own key only |
| DuplicateScanner.GroupByContents | backend/duplicate_scanner.py:55-81 | under each key are exactly the kept stripped lines with that key, in output order |
| DuplicateScanner.GroupedFilesKept | backend/duplicate_scanner.py:55-81 | every grouped file was kept and is filed under its own key |
| DuplicateScanner.ScannedFilesAccepted | backend/duplicate_scanner.py:20-84 | every scanned file is a non-blank stripped line without `/@`, not under the exclusion, an image, filed under its lower-cased name; a non-empty scan needs a connection and a folder not under the exclusion |
| DuplicateScanner.ScannedFilesComplete | backend/duplicate_scanner.py:20-84 | every accepted image line of a successful scan is filed under its lower-cased name |
| DuplicateScanner.ScannedWellFormed | backend/duplicate_scanner.py:20-84 | the scan lists each key once |
| DuplicateScanner.ScanFolderForImages | backend/duplicate_scanner.py:20-84 | the method returns the scan so described |
| DuplicateScanner.GroupFound | backend/duplicate_scanner.py:50-82 | the loop groups the accepted lines by lower-cased name |
| DuplicateScanner.AddFile | backend/duplicate_scanner.py:78-81 | the path is appended under its key, created if new |
| DuplicateScanner.Keeps | backend/duplicate_scanner.py:56-76 | the skips in the loop keep exactly the accepted paths |
| DuplicateScanner.Row | backend/duplicate_scanner.py:115-120 | one backup file is paired with each sorted file in order, named after the backup file |
| DuplicateScanner.Cross | backend/duplicate_scanner.py:114-120 | the pairs are exactly those joining a file of each list and named after the backup file, and they number the product of the lengths |
| DuplicateScanner.PairsOverCount | backend/duplicate_scanner.py:108-120 | the number of pairs is the sum over backup keys of the product of the two list lengths |
| DuplicateScanner.PairsOverMembers | backend/duplicate_scanner.py:108-120 | each pair joins a backup and a sorted file filed under the same key |
| DuplicateScanner.PairsOverComplete | backend/duplicate_scanner.py:108-120 | every backup and sorted file filed under the same key is paired |
| DuplicateScanner.SortedExclusion | backend/duplicate_scanner.py:95-99 | the backup folder is excluded from the sorted scan exactly when it lies below the sorted folder |
| DuplicateScanner.DuplicatesCount | backend/duplicate_scanner.py:86-123 | the pair count is the sum over backup names of the products of the files found on each side |
| DuplicateScanner.DuplicatesMatch | backend/duplicate_scanner.py:86-123 | in every pair both files are images with the same name ignoring case, the pair is named after the backup file, and an excluded backup folder contributes no sorted file |
| DuplicateScanner.DuplicatesComplete | backend/duplicate_scanner.py:86-123 | every backup image and every sorted image outside the excluded folder that share a name ignoring case are reported as a pair |
| DuplicateScanner.SameFolderHasNoDuplicates | backend/duplicate_scanner.py:95-103 | scanning a folder against itself finds no pair |
| DuplicateScanner.NoPairsWithoutSorted | backend/duplicate_scanner.py:108-110 | an empty sorted scan gives no pair |
| DuplicateScanner.FindDuplicates | backend/duplicate_scanner.py:86-123 | returns exactly the pairs of `Duplicates`: each one matches (`DuplicatesMatch`) and none is missing (`DuplicatesComplete`) |
| DuplicateScanner.PairUp | backend/duplicate_scanner.py:106-120 | the loops over the backup keys build the pairs in backup-key order |
| DuplicateScanner.CrossLoop | backend/duplicate_scanner.py:114-120 | the two inner loops build the cross product |
| DuplicateScanner.RowLoop | backend/duplicate_scanner.py:116-120 | the innermost loop pairs one backup file with each sorted file in order, named after the backup file |
| ReportParser.FirstWithSpec | backend/report_parser.py:54-63 | `next(...)` gives the first matching element, and none exactly when nothing matches |
| ReportParser.FirstWithSnoc | backend/report_parser.py:54-63 | an element added at the end matters only when nothing matched before |
| ReportParser.LastPosition | backend/report_parser.py:144-145 | the position is -1 or in range |
| ReportParser.LastPositionSpec | backend/report_parser.py:144-145 | the position is that of the last occurrence, -1 exactly when absent |
| ReportParser.NonBlankLinesShape | backend/report_parser.py:34 | the kept lines are non-blank and stripped |
| ReportParser.IsDupTableIff | backend/report_parser.py:38 | a table is read exactly when its lower-cased name contains "dup" |
| ReportParser.ColumnOfPragmaRow | backend/report_parser.py:44-49 | a `cid|name|...` row contributes the column `name` |
| ReportParser.ParseColumns | backend/report_parser.py:44-49 | the loop collects the second `|` field of every non-empty line with more than one field |
| ReportParser.PathColumnChoice | backend/report_parser.py:54-61 | the path column is the first mentioning "path", else the first mentioning "file", else the first column; none only without columns |
| ReportParser.GroupsByIdWellFormed | backend/report_parser.py:70-78 | every group read per group id has at least two non-blank stripped paths |
| ReportParser.UngroupedTableShape | backend/report_parser.py:79-87 | a table without a group column gives at most one group, named "default", of at least two paths |
| ReportParser.GroupedTableShape | backend/report_parser.py:65-78 | every group of a table with a group column is well formed |
| ReportParser.ColumnGroupsShape | backend/report_parser.py:54-87 | the groups of a table are well formed, and without a group column at most one "default" group |
| ReportParser.TableGroupsWellFormed | backend/report_parser.py:37-90 | every group of a table is well formed |
| ReportParser.GroupsOfTablesFromDupTables | backend/report_parser.py:37-38 | every group comes from a table whose name contains "dup" |
| ReportParser.DbGroupsWellFormed | backend/report_parser.py:23-92 | every group `parse_dup_db` returns is well formed |
| ReportParser.ParseDupDb | backend/report_parser.py:23-92 | the method returns the database groups |
| ReportParser.ReadTables | backend/report_parser.py:37-90 | the loop over the tables concatenates their groups in order |
| ReportParser.ReadTable | backend/report_parser.py:38-90 | one table's groups, after its columns are read |
| ReportParser.ReadColumns | backend/report_parser.py:51-87 | one table's groups once its columns are known |
| ReportParser.ReadGroupedTable | backend/report_parser.py:65-78 | a table with a group column: the groups of its distinct ids, none when the id query fails or answers nothing |
| ReportParser.ReadUngroupedTable | backend/report_parser.py:79-87 | a table without a group column: one "default" group of all its non-blank paths when there are two or more |
| ReportParser.ReadGroups | backend/report_parser.py:70-78 | the loop over group ids keeps the groups of two or more paths |
| ReportParser.Without | backend/report_parser.py:126 | the removed character no longer occurs |
| ReportParser.LastWithSpec | backend/report_parser.py:125-131 | the overwriting loop picks the last matching header, none exactly when none matches |
| ReportParser.LastWithStep | backend/report_parser.py:125-131 | one more header replaces the pick exactly when it matches |
| ReportParser.DetectKeys | backend/report_parser.py:125-131 | the group key is the last header mentioning "group" and the file key the last one equal to "file" or mentioning "file" but not "path" |
| ReportParser.FieldSpec | backend/report_parser.py:144-145 | a record holds a column's value at the column's last header position, and a missing value when too short |
| ReportParser.FieldOfMissingKey | backend/report_parser.py:144-145 | a column absent from the header reads as the empty default |
| ReportParser.RowEntry | backend/report_parser.py:144-150 | a record raises exactly when it is too short to reach one of the two columns |
| ReportParser.ReadRow | backend/report_parser.py:144-147 | the loop body for one record computes its entry, at most one (group id, file path) pair |
| ReportParser.RowEntryShape | backend/report_parser.py:144-147 | a record's entry has a stripped group id and file path |
| ReportParser.ShortRowFails | backend/report_parser.py:139-145 | a record too short to reach a column makes the whole parse raise |
| ReportParser.FailureHasShortRow | backend/report_parser.py:139-145 | the parse raises only at such a record |
| ReportParser.EntriesShape | backend/report_parser.py:144-150 | every entry has a non-blank stripped group id and file path |
| ReportParser.GroupEntriesSnoc | backend/report_parser.py:147-150 | one more entry is appended under its group id |
| ReportParser.FilesOf | backend/report_parser.py:147-150 | a group id has no more files than there are entries |
| ReportParser.GroupEntriesContents | backend/report_parser.py:137-150 | each group id collects its files in record order, ids listed once |
| ReportParser.GroupsOfSize2Members | backend/report_parser.py:155-161 | a group is returned exactly when its id has at least two files, with those files |
| ReportParser.CsvGroupsContents | backend/report_parser.py:113-164 | each returned group holds, in record order, the files of every record with its id, and ids are not repeated |
| ReportParser.CsvGroupsComplete | backend/report_parser.py:155-161 | every group id with at least two files is returned |
| ReportParser.ParseCsv | backend/report_parser.py:113-164 | the method returns the CSV groups, none when a key is missing, and raises only at a short record |
| ReportParser.CollectRows | backend/report_parser.py:137-150 | the loop over the records fills the groups, or raises exactly when a record does |
| ReportParser.CollectRow | backend/report_parser.py:139-150 | one record either raises, failing the whole parse, or has its entry filed under its id after the earlier records' files |
| ReportParser.KeepGroupsOfSize2 | backend/report_parser.py:155-161 | the loop keeps the groups of two or more in first-appearance order |
| ReportParser.ClassifyPicks | backend/report_parser.py:231-252 | backup is the first image path in the backup folder and sorted the first image path in the sorted folder and not in the backup folder; valid exactly when both exist |
| ReportParser.ClassifyWithoutImages | backend/report_parser.py:237-240 | a group without image paths gives (None, None, False) |
| ReportParser.ClassifyDuplicateGroup | backend/report_parser.py:231-252 | the loop computes that classification |
| ReportParser.ClassifyAll | backend/report_parser.py:268-279 | no more classified groups than raw groups |
| ReportParser.ClassifyAllMembers | backend/report_parser.py:268-279 | exactly the valid groups are returned, each with its classification and all its paths |
| ReportParser.ReportPrefersDatabase | backend/report_parser.py:257-264 | when the database gives groups, the CSV export does not matter |
| ReportParser.ReportGroupsShape | backend/report_parser.py:254-282 | every reported group has at least two paths and distinct image-suffixed backup and sorted copies among them, in their folders |
| ReportParser.ClassifyGroups | backend/report_parser.py:268-279 | the loop keeps the valid groups in order |
| ReportParser.ParseReport | backend/report_parser.py:254-282 | the method returns the report |
| RecycleBin.FirstExistingSpec | backend/recycle_bin.py:20-29 | the search finds nothing exactly when no candidate exists, else the first existing candidate joined to the share root |
| RecycleBin.DetectedSpec | backend/recycle_bin.py:8-29 | nothing without a connection; otherwise the first existing of `#recycle`, `@Recycle`, `@recycle`, `.recycle` |
| RecycleBin.DetectedUnderShareRoot | backend/recycle_bin.py:18-26 | a detected bin starts with the share root and is named after a candidate |
| RecycleBin.DetectRecycleBin | backend/recycle_bin.py:8-29 | the loop returns the detected bin |
| RecycleBin.NewLocationShape | backend/recycle_bin.py:42-55 | the new location is bin / parent folder name / file name |
| RecycleBin.NewLocationKeepsOneLevel | backend/recycle_bin.py:42-55 | files with the same name whose parents share a name land on the same location |
| RecycleBin.MovedSpec | backend/recycle_bin.py:31-67 | success exactly when connected and both mkdir and mv succeed; mv is issued only after a successful mkdir; a location exactly on success and an error exactly on failure |
| RecycleBin.MoveToRecycleBin | backend/recycle_bin.py:31-67 | the method returns the move's result and commands |
| RecycleBin.RestoredSpec | backend/recycle_bin.py:69-97 | success exactly when connected and both steps succeed; the mv follows a successful mkdir of the original folder |
| RecycleBin.RestoreReversesMove | backend/recycle_bin.py:55-86 | the restore's mv takes the file from its new location back to its original path |
| RecycleBin.RestoreFromRecycleBin | backend/recycle_bin.py:69-97 | the method returns the restore's result and commands |
| ReviewActions.SetRow | backend/review_actions.py:68-72 | updating a row by id changes only that row's reviewed flag and action, and no row when the id is absent |
| ReviewActions.SetRowTwice | backend/review_actions.py:133-137 | the second update of a row wins |
| ReviewActions.PushKeepsIncreasing | backend/review_actions.py:75-81 | a pushed entry gets an id above every id on the stack, which stays increasing |
| ReviewActions.NewestFor | backend/review_actions.py:112-120 | the entry picked belongs to the session and no later entry does |
| ReviewActions.RemoveIdRemovesOne | backend/review_actions.py:140 | deleting by id removes exactly that entry and keeps the stack increasing |
| ReviewActions.ShareRootOfAbsolutePath | backend/review_actions.py:55 | the share root of `/v/s/rest` is `//v/s` |
| ReviewActions.StatsSpec | backend/review_actions.py:154-198 | reviewed at most total, remaining the rest, deleted plus ignored at most total, completed exactly when every row of the session is reviewed |
| ReviewActions.ReviewStore.constructor | backend/review_actions.py:11-42 | a store starts with the given rows, no ignored pair and an empty undo stack |
| ReviewActions.ReviewStore.IgnoreDuplicate | backend/review_actions.py:11-42 | the row becomes reviewed and ignored, the pair is recorded, the undo stack is unchanged |
| ReviewActions.ReviewStore.DeleteDuplicate | backend/review_actions.py:44-99 | without a bin or with a failed move nothing changes and the error is returned; on success the row becomes deleted and an entry with previous state (no action, not reviewed) and the new location is pushed |
| ReviewActions.RecycleFile | backend/review_actions.py:54-65 | no bin detected for the share root yields "Recycle bin not found. Cannot safely delete."; a failed move yields the move's error; a successful move yields the file's new location in the bin |
| ReviewActions.ReviewStore.RecordDelete | backend/review_actions.py:67-92 | the row becomes reviewed with action deleted, an undo entry with the earlier state (not reviewed, no action), the backup path and the new location is pushed with the next id, and the same id is returned |
| ReviewActions.ReviewStore.UndoLastAction | backend/review_actions.py:101-152 | "Nothing to undo" without an entry; a failed restore changes nothing; otherwise the row gets the entry's previous state, exactly that entry is removed and "delete" is returned |
| ReviewActions.RestoreEntry | backend/review_actions.py:126-130 | an error is reported exactly when the entry names a file in the bin and moving it back fails, and it is "Failed to restore file: " followed by the move's error |
| ReviewActions.ReviewStore.GetReviewStats | backend/review_actions.py:154-198 | the statistics, with remaining never negative and completed exactly when every row is reviewed |
| ReviewActions.DetectedNotEmpty | backend/review_actions.py:56-59 | a detected bin is never empty, so only a missing bin is refused |
| ReviewActions.UndoAfterDelete | backend/review_actions.py:75-137 | undoing a delete restores the row to (not reviewed, no action) and pops the pushed entry |
| ReviewActions.IgnoreIdempotent | backend/review_actions.py:20-35 | ignoring twice is ignoring once |
| InboxScreen.CycledTab | frontend/src/screens/InboxScreen.jsx:290-298 | cycling always changes the tab |
| InboxScreen.CycleTabThrice | frontend/src/screens/InboxScreen.jsx:290-298 | three cycles return to the start, through the two other tabs |
| InboxScreen.PreviousSelection | frontend/src/screens/InboxScreen.jsx:274-280 | ArrowLeft always leaves an image selected and keeps a selected one |
| InboxScreen.NextSelection | frontend/src/screens/InboxScreen.jsx:282-288 | ArrowRight always leaves an image selected and keeps a selected one |
| InboxScreen.ArrowsKeepSelection | frontend/src/screens/InboxScreen.jsx:274-288 | once an image is selected no run of arrows changes it; from none, the first arrow decides |
| InboxScreen.PairListsSpec | frontend/src/screens/InboxScreen.jsx:64-86 | the duplicates list is exactly the unreviewed pairs and the ignored list exactly the reviewed ignored ones; the two are disjoint |
| InboxScreen.RemoveAt | frontend/src/screens/InboxScreen.jsx:162 | removing an index drops exactly that pair and keeps the others in order |
| InboxScreen.RemovalSelectsNeighbour | frontend/src/screens/InboxScreen.jsx:162-168 | after a removal the clamped index points into the shorter list, at the next pair or the new last one |
| InboxScreen.ListedPairs | frontend/src/screens/InboxScreen.jsx:51-77 | an error answer leaves no pair; the list holds only unreviewed pairs, exactly those of a good answer |
| InboxScreen.StoredSettings | frontend/src/screens/InboxScreen.jsx:32-37 | the stored settings are complete exactly when all three keys hold non-empty values |
| InboxScreen.Inbox.constructor | frontend/src/screens/InboxScreen.jsx:27-49 | mounting reads the settings and the last session id from storage, with empty lists and no action |
| InboxScreen.Inbox.LoadDuplicates | frontend/src/screens/InboxScreen.jsx:51-77 | without a session nothing changes; otherwise the duplicates list, error and index follow the answer and the ignored list is reloaded after a good answer |
| InboxScreen.Inbox.ApplyListed | frontend/src/screens/InboxScreen.jsx:60-76 | the duplicates answer sets the list and error, and resets the index on success |
| InboxScreen.Inbox.LoadIgnored | frontend/src/screens/InboxScreen.jsx:79-92 | the ignored list is replaced only by a good answer for a session |
| InboxScreen.Inbox.StartIgnore | frontend/src/screens/InboxScreen.jsx:142-160 | the ignore request is sent exactly when there is a current pair and no action in progress |
| InboxScreen.Inbox.StartDelete | frontend/src/screens/InboxScreen.jsx:178-195 | the delete request is sent exactly when there is a current pair and no action in progress |
| InboxScreen.Inbox.StartRemoval | frontend/src/screens/InboxScreen.jsx:142-195 | the shared guard and the captured list and index |
| InboxScreen.Inbox.FinishRemoval | frontend/src/screens/InboxScreen.jsx:160-213 | on success exactly the captured current pair is removed and the index clamped; on failure the alert is shown and the list kept; the action ends either way |
| InboxScreen.Inbox.StartUndo | frontend/src/screens/InboxScreen.jsx:216-226 | undo is sent exactly when a session exists and no action is in progress |
| InboxScreen.Inbox.FinishUndo | frontend/src/screens/InboxScreen.jsx:226-238 | on success both lists, the error, the index and the image selection are those of the reload for the captured session; otherwise only an alert is added; the action ends |
| InboxScreen.Inbox.StartUnignore | frontend/src/screens/InboxScreen.jsx:240-250 | unignore is sent exactly when there is a current ignored pair and no action in progress |
| InboxScreen.Inbox.FinishUnignore | frontend/src/screens/InboxScreen.jsx:250-267 | on success with a session the duplicates list and error follow the reload and the ignored list the second answer when it is good, else the first; the index and image selection are reset; otherwise only an alert is added; the action ends |
| InboxScreen.Inbox.ReloadAfterUnignore | frontend/src/screens/InboxScreen.jsx:258-261 | the two reloads and the reset of the index and the image selection; without a session the lists stay |
| InboxScreen.Inbox.StartScan | frontend/src/screens/InboxScreen.jsx:105-124 | without both scan paths the settings open with an alert and nothing is sent; otherwise the scan request is sent |
| InboxScreen.Inbox.FinishScan | frontend/src/screens/InboxScreen.jsx:125-140 | a started scan becomes the session, is stored and its lists are loaded as by `LoadDuplicates`; a refusal or failure sets the error and leaves the session, the storage and the lists as they were; scanning ends |
| InboxScreen.Inbox.AdoptSession | frontend/src/screens/InboxScreen.jsx:127-131 | the session is set and stored, and the lists follow the answers when the id is non-empty |
| InboxScreen.Inbox.CycleTab | frontend/src/screens/InboxScreen.jsx:290-298 | the tab cycles and selection and index reset |
| InboxScreen.Inbox.SelectTab | frontend/src/screens/InboxScreen.jsx:504-514 | a tab button selects its tab and resets selection and index |
| InboxScreen.Inbox.SettingsChanged | frontend/src/screens/InboxScreen.jsx:39-41 | the new settings replace the old |
| InboxScreen.Inbox.FireTimeout | frontend/src/screens/InboxScreen.jsx:314-329 | the oldest scheduled panel opens |
| InboxScreen.Inbox.KeyPress | frontend/src/screens/InboxScreen.jsx:302-361 | keys aimed at a text field do nothing; Escape closes help if open, else settings; the arrows move the image selection; a character is handled exactly when it is a shortcut, `c` cycles the tab, `e`/`d` send a request exactly when there is a current pair and no action running, `k` exactly when both scan paths are set, ctrl-`z` exactly when there is a session and no action running |
| InboxScreen.Inbox.CharKey | frontend/src/screens/InboxScreen.jsx:314-358 | `?`/`s` toggle panels; `k` scans only with both paths; `c` cycles the tab; `e`/`d` start ignore/delete exactly when allowed; `u` unignores only on the ignored tab; ctrl/meta+z undoes; other characters do nothing |
| InboxScreen.Inbox.PanelKey | frontend/src/screens/InboxScreen.jsx:314-329 | `?` with settings open closes them and schedules help, else toggles help; `s` with help open closes it and schedules settings, else opens settings |
| InboxScreen.Inbox.PairKey | frontend/src/screens/InboxScreen.jsx:342-356 | `e`/`d` start ignore/delete exactly when a pair is shown and no action runs; `u` unignores only on the ignored tab; ctrl/meta+z undoes; other characters are not handled |
| SettingsSidebar.SavedStorage | frontend/src/components/SettingsSidebar.jsx:52-58 | loading the saved storage gives back exactly the saved paths, other keys untouched |
| SettingsSidebar.ClearedStorage | frontend/src/components/SettingsSidebar.jsx:70-73 | after clearing, the recycle bin loads as empty and the other keys are untouched |
| SettingsSidebar.Sidebar.constructor | frontend/src/components/SettingsSidebar.jsx:5-21 | mounting loads the three paths from storage, with nothing valid, no pair result and no check scheduled |
| SettingsSidebar.Sidebar.PairEffect | frontend/src/components/SettingsSidebar.jsx:23-50 | with an empty or invalid path the result is cleared and no check scheduled; otherwise a check of the current paths is scheduled and the previous result stays |
| SettingsSidebar.Sidebar.ChangeBackupPath | frontend/src/components/SettingsSidebar.jsx:157-164 | a new non-empty path is stored under its key and re-runs the pair effect; a non-blank path keeps the field's validity, and while both paths stay checkable the save gate is unchanged; a blank path (white space only) leaves the field invalid, no pair result and saving blocked; emptying the field gives the stored path back, likewise invalid with saving blocked |
| SettingsSidebar.Sidebar.ChangeSortedPath | frontend/src/components/SettingsSidebar.jsx:166-174 | the same for the sorted path: stored when non-empty, validity kept for a non-blank path, and for a blank or emptied path the field invalid, no pair result and saving blocked |
| SettingsSidebar.Sidebar.ChangeRecycleBinPath | frontend/src/components/SettingsSidebar.jsx:264-271 | a non-empty path is stored under its key; a non-blank path keeps the field's validity, a blank one leaves the field invalid and saving blocked; emptying the field gives the stored path back with the field invalid; the pair check is untouched |
| SettingsSidebar.Sidebar.BackupValidation | frontend/src/components/SettingsSidebar.jsx:23-77 | only the flag is kept; a flag turning false clears the pair result and blocks saving; a flag turning true re-runs the pair effect, which schedules the check of the current paths when both are filled in and valid, and clears the pair result otherwise; an unchanged flag changes nothing |
| SettingsSidebar.Sidebar.SortedValidation | frontend/src/components/SettingsSidebar.jsx:23-81 | only the flag is kept; a flag turning false clears the pair result and blocks saving; a flag turning true re-runs the pair effect, which schedules the check of the current paths when both are filled in and valid, and clears the pair result otherwise; an unchanged flag changes nothing |
| SettingsSidebar.Sidebar.RecycleBinValidation | frontend/src/components/SettingsSidebar.jsx:83-85 | only the flag is kept; false blocks saving |
| SettingsSidebar.Sidebar.FirePairTimer | frontend/src/components/SettingsSidebar.jsx:29-33 | the timer sends the check of the current paths and blocks saving while it is unanswered |
| SettingsSidebar.Sidebar.ReceivePair | frontend/src/components/SettingsSidebar.jsx:40-46 | an answer replaces the result, a failure keeps the old one; the in-flight flag is cleared either way |
| SettingsSidebar.Sidebar.Save | frontend/src/components/SettingsSidebar.jsx:52-68 | nothing unless saving is allowed; then the three keys are written, the parent notified and the sidebar closed |
| SettingsSidebar.Sidebar.ClearRecycleBin | frontend/src/components/SettingsSidebar.jsx:70-73 | the field is emptied and its key removed, and a field that held a path reports itself invalid, which blocks saving |
| SettingsSidebar.Sidebar.KeyPress | frontend/src/components/SettingsSidebar.jsx:90-99 | Escape closes the sidebar only while it is open |
| ReviewScreen.NextIndex | frontend/src/screens/ReviewScreen.jsx:67-71 | the index moves one forward, never past the last group |
| ReviewScreen.PreviousIndex | frontend/src/screens/ReviewScreen.jsx:61-65 | the index moves one back, never before the first group |
| ReviewScreen.PreviousUndoesNext | frontend/src/screens/ReviewScreen.jsx:61-71 | Previous undoes Next and Next undoes Previous away from the ends |
| ReviewScreen.SkippedMarksPassed | frontend/src/screens/ReviewScreen.jsx:46-51 | k skips advance k groups up to the last, never forget a reviewed id and mark every group passed |
| ReviewScreen.SkipsReviewAll | frontend/src/screens/ReviewScreen.jsx:8-51 | from the start, at least as many presses of Enter as there are groups end on the last group with every group reviewed |
| ReviewScreen.Review.constructor | frontend/src/screens/ReviewScreen.jsx:4-5 | the screen starts at the first group with nothing reviewed |
| ReviewScreen.Review.Skip | frontend/src/screens/ReviewScreen.jsx:46-51 | the current group is marked reviewed and the index moves on |
| ReviewScreen.Review.Delete | frontend/src/screens/ReviewScreen.jsx:53-59 | the same state change as Skip, with the backup path only logged |
| ReviewScreen.Review.Previous | frontend/src/screens/ReviewScreen.jsx:61-65 | the index moves back, reviewed unchanged |
| ReviewScreen.Review.Next | frontend/src/screens/ReviewScreen.jsx:67-71 | the index moves on, reviewed unchanged |
| ReviewScreen.Review.KeyPress | frontend/src/screens/ReviewScreen.jsx:29-44 | keys aimed at a text field do nothing, Enter skips, `d`/`D` deletes, others do nothing; reviewed only grows |

## Findings

| source | as written | input that shows it | evidently intended | confidence | as-written member | corrected member |
|---|---|---|---|---|---|---|
| backend/path_utils.py:167-171 | the readability probe prints "readable" or "notreadable", and the check is `'readable' not in output` | an existing folder whose probe prints "notreadable" is reported valid | reject the folder when the probe prints "notreadable" | high, not executed | PathUtils.ReadabilityAnswerIgnored | PathUtils.IntendedReadability |

## Left out

- SSH, the shell and the commands' text: each command is a value of `Shell.Command` and its result comes from the `Nas` oracle. The model does not quote paths into command strings.
- SQLite: the review table is a map from id to row, `ignored_pairs` a set (INSERT OR IGNORE behaves as a set on the pair), and `undo_stack` a sequence. Commit, rollback and exceptions are not modelled; the model never raises. The `ignored_pairs` and `undo_stack` tables are not created in `backend/db.py`, which is not part of this model.
- ReviewActions.ReviewStore.UndoLastAction: "newest entry of the session" is the last entry pushed for it, not the newest timestamp. Timestamps come from the clock and are not modelled; entries are pushed in time order.
- The database functions `save_duplicates_to_db`, `get_duplicates_from_db` and `get_scan_sessions` of `backend/duplicate_scanner.py` are not modelled: they are storage and id generation, not matching.
- Zip extraction, UTF-16 decoding and the remote script of `parse_csv_zip`, and the SFTP fallback: the model starts at the decoded header and records (`ReportParser.CsvTable`). Both CSV branches of the source run the same header and grouping code, modelled once.
- `csv.DictReader` filling a short record with `None`, which makes `.strip()` raise: modelled as the whole parse failing (`None`).
- `Config.is_backup_path` and `Config.is_sorted_path` do not exist in `backend/config.py`; they are predicate parameters of the classification.
- Python's `str.lower`/`str.strip` and JavaScript's `toLowerCase`/`trim` are modelled on ASCII only. Both sides share one white-space set (space, tab, line feed, carriage return, vertical tab, form feed); the ASCII separators `\x1c`-`\x1f`, which `str.strip` also removes and `trim` keeps, count as text.
- `os.path.normpath` is modelled without `..` handling and without POSIX keeping a leading `//`.
- Logging and `print` calls, and the row counters of the CSV loop, which only feed them.
- Timers, promises and response races: each timer expiry and each response is an event the caller chooses. Real durations are not modelled. Requests are not cancelled, so a late response is applied as in the source.
- SettingsSidebar.Sidebar.ChangeBackupPath, SettingsSidebar.Sidebar.ChangeSortedPath, SettingsSidebar.Sidebar.ChangeRecycleBinPath: the field's validity flag (and, for the first two, the save gate) is promised to stay only for a new value that is not blank, because a blank or emptied field reports itself invalid in the same render.
- SettingsSidebar.Sidebar.ClearRecycleBin: the recycle bin's validity flag is promised to stay only when the field was already empty, for the same reason.
- PathInput.PathField.KeyDown: Enter on a highlighted index past the filtered rows makes the source throw in `handleSuggestionClick`. It is modelled as the `HandlerError` outcome, with the state unchanged.
- The focus and synthetic `input` event dispatched 0 ms after accepting a suggestion are not fired by the accept methods. The focus is the model's `PathInput.PathField.Focus` event, which the caller fires next; since the accepted value ends in `/`, it re-opens the dropdown. The synthetic `input` event has no observable effect: it does not move the caret, and React does not call `onChange` for it because the input's value already equals the value React tracks.
- InboxScreen: the `loading` flag, the statistics fetch (`loadStats`) and its sidebar, and rendering. The help and settings panels' own close buttons are not modelled.
- ReviewScreen: rendering; the delete is a placeholder that only logs, which is modelled as the `logged` sequence.
- Frontend files other than the three screens' logic and the two components named above, and the backend files `main.py`, `config.py`, `report_discovery.py`, `thumbnail_service.py` and `ssh_client.py`.
