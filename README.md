# ImageOrganizer, modelled in Dafny

ImageOrganizer is a desktop tool for triaging image files. The user:

1. imports files into an *unreviewed* list;
2. moves each file to an *accepted* list, or rejects it;
3. may tag accepted files and filter the accepted view by tag;
4. saves the files of the filtered accepted view into a target directory by copying or moving them (the back end's `file_operations` module can also sort them into folders named from each file's creation date, but the command the application registers does not);
5. sees a dialog that reports what was saved.

This project models the parts of the program that decide what happens, and proves properties of them.

| file | module | models |
|---|---|---|
| `triage.dfy` | `Triage` | The organizer screen's state: the two lists of `{path, tag}` records and the selected tags. It covers the import filter, accept/reject/unaccept by index, tagging, accept-all, unaccept-all and clear. It also covers the sorted tag universe, pruning of the selected tags, the tag-filtered accepted view with its `__UNTAGGED` sentinel, and translating a filtered index back to the accepted list. |
| `focus_context.dfy` | `FocusContext` | The shared focus provider: one `(fileListId, selectedIndex)` pair plus a `file` cell, `setFocus`, `setFile`, and the guard against a missing context. |
| `file_lists.dfy` | `FileLists` | One file list: `selectRow`, the re-clamping effect, the arrow keys, and row highlighting. |
| `save_model.dfy` | `SaveModel` | The save report (`SaveResult` / `SaveImageResult`). |
| `save_dialog.dfy` | `SaveDialog` | The save dialog: its title, opening on a result, and removing the saved files from the accepted list, both as written and as intended. |
| `combobox.dfy` | `Combobox` | The tag filter's select box: selected options, `onSelect` in multi and single mode, the preview text and the trigger text. |
| `command_filter.dfy` | `CommandFilter` | The command menu's search predicate. Both sides are lower-cased, umlauts and "ß" are folded, and the prepared search is looked for as a substring. |
| `path_names.dfy` | `PathNames` | `getBasename` and `getFileExtension`. |
| `std_path.dfy` | `StdPath` | The two parts of Rust's `std::path` the back end uses: `file_name` and `join`. They are written out for '/'-separated paths. |
| `file_sorting.dfy` | `FileSorting` | German month names, the date template `interpolate_date_format`, and the loop of `sort_files`. It also states the module's unit tests as lemmas. |
| `file_operations.dfy` | `FileOperations` | `save_files`: how each file's outcome is classified and entered into the result. |
| `wrappers.dfy`, `seqs.dfy`, `strings.dfy` | `Wrappers`, `Seqs`, `Strings` | `Option`/`Result`, and the sequence and string operations of JavaScript and Rust that the code relies on: `filter`, `slice`, `findIndex`, `replaceAll`/`replace`, `lastIndexOf`, `includes`, `join`, and zero-padded decimals. |

**Form of the model.** The model keeps the program's own form:

- **TriageStore:** the triage store is a class with two `seq` fields, and every handler is a method whose `ensures` gives the new lists.
- **FocusContext and FileLists:** the focus provider and the file lists are classes. The lists drive the shared focus through `SetFocus`/`SetFile`.
- **SaveImageDialog:** the dialog is a class holding its `open` flag and the accepted list it may shorten.
- **SaveFiles and SortFiles:** these methods run loops. Each is proved against a specification function: `SaveFilesResult` for the first, `Placement` per file for the second.
- **Pure code:** the views, the string helpers, the filter, the combobox computations and the date template are functions.

**What is proved.** Each operation has a partner: an invariant it keeps, an independent reference definition, or a lemma connecting it to one.

- **Triage moves:**
  - The store keeps every path on at most one list, at most once. `Valid` holds after every handler.
  - Moves preserve the multiset of records.
- **Tags and views:**
  - `FileTags` is strictly ascending, with exactly the tags on the accepted files.
  - The filtered view is an order-preserving subsequence holding exactly the files that pass.
- **Focus:** re-clamping settles the focus and is idempotent, and the arrow keys stay in range.
- **Save:** with distinct paths, each file ends up either in the errors or in the saved list, as its outcome says. The saved paths keep their input order.
- **Date template:** the four successive replacement passes equal one left-to-right scan (`FileSorting.InterpolateIsExpand`). The unit tests of `file_sorting.rs` follow from that scan.
- **Search filter:** the four chained replacements equal folding character by character (`CommandFilter.PrepareIsFold`).

**Observations.**

- **A failed sort would be titled as a success.** When sorting fails, `file_operations::save_files` reports only a global error. The dialog never looks at global errors, so it would be titled "Dateien erfolgreich gespeichert" although nothing was saved (`SaveDialog.SortFailureTitledAsSaved`). In the program as it stands the case is latent: the command registered at src-tauri/src/main.rs:111 is the older `save_files` of src-tauri/src/main.rs:37, which neither sorts nor reports global errors, and `saveImages` passes no sort variant (src/routes/main-screen/ImageOrganizer.tsx:82-86).
- **Admissible paths repeated in one import are all kept** (`Triage.ImportKeepsBatchDuplicates`). For that reason, `Import` is proved to keep paths unique only for a batch without repeats.
- **`rejectFile` with a negative index.** It is modelled with JavaScript's `slice` semantics, so it is defined for every integer. An index of `-1` does not remove the last file. Instead it yields the list minus its last element followed by the whole list. Only indices from 0 upward are proved to keep paths unique.
- **"Gespeicherte entfernen" removes nothing.** The button compares records with path strings, so no record ever matches (see "Findings").
- **An empty-string tag** is in the tag universe but can never pass the filter (`Triage.EmptyTagNeverShown`).

## Model

| member | source | states |
|---|---|---|
| PathNames.SplitOnSeparators | src/common/functions.ts:2 | The split has at least one part. It has exactly one part iff the path has no '/' or '\\', and that part is then the path itself. |
| PathNames.GetBasename | src/common/functions.ts:1-3 | `getBasename` is the last part of the split. What that part is, in terms of the path, is stated by `PathNames.BasenameIsLastSegment`. |
| PathNames.BasenameIsLastSegment | src/common/functions.ts:1-3 | The basename is a suffix of the path with no separator in it. Whenever it is shorter than the path, a separator stands just before it. So it is the text after the last separator, or the whole path when there is none. |
| PathNames.BasenameOfTrailingSeparator | src/common/functions.ts:2 | A path ending in a separator has the empty basename. |
| PathNames.LastSeparatorIndex | src/common/functions.ts:6 | The index is -1 or the position of a separator, and no separator comes after it. |
| PathNames.GetFileExtension | src/common/functions.ts:5-14 | An extension exists iff the path does not end in '.' and its last segment holds a '.'. An extension is non-empty, free of '.', '/' and '\\', and the path ends with "." + extension. |
| PathNames.ExtensionOnlyInLastSegment | src/common/functions.ts:6-7 | "a.b/c" and "a.b\\c" have no extension. |
| PathNames.ExtensionOfHiddenFile | src/common/functions.ts:8-12 | ".bashrc" has the extension "bashrc". |
| PathNames.ExtensionOfTrailingDot | src/common/functions.ts:8-14 | "x." and "a.b." have no extension. |
| PathNames.ExtensionOfPlainName | src/common/functions.ts:8-14 | "x" has no extension. |
| Triage.Imported | src/routes/main-screen/ImageOrganizer.tsx:71-76 | The appended records carry the admitted paths, in order, all untagged. |
| Triage.ImportTakesAdmitted | src/routes/main-screen/ImageOrganizer.tsx:59-76 | The import takes, in picking order, exactly the picked paths that have an extension and are on neither list. |
| Triage.ImportKeepsBatchDuplicates | src/routes/main-screen/ImageOrganizer.tsx:59-69 | When every picked path is admissible, all are taken, repeats included. |
| Triage.Retag | src/routes/main-screen/ImageOrganizer.tsx:135-139 | Only the tag of the record at the index changes. The length, the paths and every other record stay as they were. |
| Triage.InsertSorted | src/routes/main-screen/ImageOrganizer.tsx:160-161 | Adding a tag to a strictly ascending list keeps it strictly ascending, with exactly the old members plus the tag. |
| Triage.FileTags | src/routes/main-screen/ImageOrganizer.tsx:159-162 | The tag universe is strictly ascending. A string is in it iff some accepted file carries it as its tag. |
| Triage.SortedHasNoDuplicates | src/routes/main-screen/ImageOrganizer.tsx:159-162 | A strictly ascending list such as the tag universe has no duplicates. |
| Triage.Prune | src/routes/main-screen/ImageOrganizer.tsx:164-166 | Pruning keeps the selected tags in order. It leaves only tags of the universe, and keeps every selected tag that is in it. |
| Triage.PruneDropsUntaggedFilter | src/routes/main-screen/ImageOrganizer.tsx:164-166 | Recomputing the universe drops "__UNTAGGED" from the selection, unless an accepted file carries that tag. |
| Triage.Shown | src/routes/main-screen/ImageOrganizer.tsx:170-177 | The per-file test of the tag filter. Its consequences are stated by `Triage.FilteredViewMembers`, `Triage.EmptyTagNeverShown` and `Triage.UntaggedShownIffSelected`. |
| Triage.FilteredView | src/routes/main-screen/ImageOrganizer.tsx:168-179 | `filteredAcceptedFiles`: all accepted files when no tag is selected, otherwise those that pass `Shown`. Its contents are stated by `Triage.FilteredViewMembers`. |
| Triage.FilteredViewMembers | src/routes/main-screen/ImageOrganizer.tsx:168-179 | The view is a subsequence of the accepted list and equals it when nothing is selected. Otherwise it holds exactly the accepted files whose tag is non-empty and selected, or that have no tag while "__UNTAGGED" is selected. |
| Triage.EmptyTagNeverShown | src/routes/main-screen/ImageOrganizer.tsx:173-176 | With an active filter, a file tagged "" is never shown. |
| Triage.UntaggedShownIffSelected | src/routes/main-screen/ImageOrganizer.tsx:172-176 | With an active filter, an untagged file is shown iff "__UNTAGGED" is selected. |
| Triage.FilteredIndexToUnfiltered | src/routes/main-screen/ImageOrganizer.tsx:121-126 | A null index gives null. A result is an accepted index whose path is the path of the view's file at the index, and no earlier accepted file has that path. |
| Triage.SubsequenceKeepsUniquePaths | src/routes/main-screen/ImageOrganizer.tsx:168-177 | Dropping records, as the filtered view does, keeps their paths pairwise different. |
| Triage.TranslationFindsFile | src/routes/main-screen/ImageOrganizer.tsx:121-126 | Every index into the view translates to some accepted index. |
| Triage.TranslationIsExact | src/routes/main-screen/ImageOrganizer.tsx:121-126 | With unique paths, the translated index holds the very record the view shows. |
| Triage.ValidAcceptedUnique | src/routes/main-screen/ImageOrganizer.tsx:59-157 | On a store that keeps its invariant, the accepted records have pairwise different paths. |
| Triage.StoreTranslationIsExact | src/routes/main-screen/ImageOrganizer.tsx:121-126 | On a store that keeps its invariant, every row of the filtered view translates to the very record the row shows. |
| Triage.TriageStore.constructor | src/routes/main-screen/ImageOrganizer.tsx:29-41 | Both lists and the selected tags start empty, and the store is valid. |
| Triage.TriageStore.Import | src/routes/main-screen/ImageOrganizer.tsx:59-76 | The imported records are appended to the unreviewed list, and the accepted list is untouched. Uniqueness of paths is kept for a batch without repeats. |
| Triage.TriageStore.AcceptFile | src/routes/main-screen/ImageOrganizer.tsx:91-100 | A null index changes nothing. Otherwise the record leaves the unreviewed list and is appended to the accepted list. The record multiset and uniqueness are kept. |
| Triage.TriageStore.RejectFile | src/routes/main-screen/ImageOrganizer.tsx:102-108 | The unreviewed list becomes the JavaScript slice-and-spread of the old one, so an in-range index removes exactly that record. The accepted list is untouched. |
| Triage.TriageStore.UnacceptFile | src/routes/main-screen/ImageOrganizer.tsx:110-119 | A null index changes nothing. Otherwise the record leaves the accepted list and is appended to the unreviewed list. The record multiset and uniqueness are kept. |
| Triage.TriageStore.TagFile | src/routes/main-screen/ImageOrganizer.tsx:128-140 | Only the chosen list changes, and only by retagging the record at the index. A null index changes nothing. |
| Triage.TriageStore.AcceptAll | src/routes/main-screen/ImageOrganizer.tsx:142-145 | The unreviewed records are appended to the accepted ones and the unreviewed list empties. The record multiset and uniqueness are kept. |
| Triage.TriageStore.UnacceptAll | src/routes/main-screen/ImageOrganizer.tsx:147-153 | The accepted records are appended to the unreviewed ones and the accepted list empties. The record multiset and uniqueness are kept. |
| Triage.TriageStore.ClearUnreviewed | src/routes/main-screen/ImageOrganizer.tsx:155-157 | The unreviewed list empties and nothing else changes. |
| Triage.TriageStore.SetSelectedTags | src/routes/main-screen/ImageOrganizer.tsx:41 | The selection becomes the argument, and the lists are untouched. |
| Triage.TriageStore.PruneSelectedTags | src/routes/main-screen/ImageOrganizer.tsx:164-166 | The selection is pruned against the tag universe of the accepted list. |
| Triage.AcceptThenUnaccept | src/routes/main-screen/ImageOrganizer.tsx:91-119 | Accepting index i and then unaccepting the last accepted index puts the record at the end of the unreviewed list, and leaves the accepted list as it was. |
| Triage.ConcatKeepsUnique | src/routes/main-screen/ImageOrganizer.tsx:142-153 | Moving one whole list onto the other keeps paths unique across both. |
| Triage.MoveKeepsUnique | src/routes/main-screen/ImageOrganizer.tsx:91-100 | Moving one record from unreviewed to accepted preserves the multiset of paths and their uniqueness. |
| Triage.MoveBackKeepsUnique | src/routes/main-screen/ImageOrganizer.tsx:110-119 | Moving one record from accepted to unreviewed keeps paths unique. |
| Triage.RemoveKeepsUnique | src/routes/main-screen/ImageOrganizer.tsx:102-108 | Removing a record keeps paths unique. |
| Triage.ImportKeepsUnique | src/routes/main-screen/ImageOrganizer.tsx:59-76 | Importing a batch without repeats keeps paths unique across both lists. |
| FocusContext.FileListFocus.constructor | src/components/file-list/fileListFocusContext.tsx:14-16 | The list id, the index and the file all start as null. |
| FocusContext.FileListFocus.SetFocus | src/components/file-list/fileListFocusContext.tsx:18-21 | The list id and the index become the arguments, and the file is untouched. |
| FocusContext.FileListFocus.SetFile | src/components/file-list/fileListFocusContext.tsx:16 | Only the file cell changes. |
| FileLists.SelectRowEffect | src/components/file-list/FileList.tsx:27-35 | Selecting no row makes no list active. Selecting a row makes this list, and no other, active, and the focus is settled iff the index is a row of the list. |
| FileLists.Reclamped | src/components/file-list/FileList.tsx:37-49 | The focus after the re-clamping effect. What it does case by case is stated by `FileLists.ReclampCases`, and its settling and idempotence by the lemmas below. |
| FileLists.ReclampCases | src/components/file-list/FileList.tsx:37-49 | Re-clamping does nothing unless this list holds the focus with an index. On an empty list it clears the focus. Otherwise it selects the index clamped to 0..length-1, with its file. |
| FileLists.ReclampSettles | src/components/file-list/FileList.tsx:37-49 | After re-clamping, an index of this list is in range and its file is shown. |
| FileLists.ReclampKeepsSettled | src/components/file-list/FileList.tsx:46-47 | A settled focus is re-applied unchanged. |
| FileLists.ReclampIdempotent | src/components/file-list/FileList.tsx:37-49 | Re-clamping twice equals re-clamping once. |
| FileLists.ArrowDownState | src/components/file-list/FileList.tsx:51-60 | The focus after ArrowDown. Its range and step are stated by `FileLists.ArrowsStayInRange` and `FileLists.ArrowDownOnEmptyList`. |
| FileLists.ArrowUpState | src/components/file-list/FileList.tsx:61-66 | The focus after ArrowUp. Its range and step are stated by `FileLists.ArrowsStayInRange`. |
| FileLists.ArrowsStayInRange | src/components/file-list/FileList.tsx:51-66 | In a non-empty list, ArrowDown selects min(i+1, len-1) and ArrowUp selects max(i-1, 0), keeping the focus settled. An inactive list ignores both. |
| FileLists.ArrowDownOnEmptyList | src/components/file-list/FileList.tsx:51-60 | In an empty list ArrowDown selects -1 with no file, and the next re-clamp clears the focus. |
| FileLists.FileList.constructor | src/components/file-list/FileList.tsx:11-21 | A list has its id and the shared focus. |
| FileLists.FileList.SelectRow | src/components/file-list/FileList.tsx:27-35 | Through `setFocus` and `setFile`, the shared focus becomes `SelectRowState`. |
| FileLists.FileList.Reclamp | src/components/file-list/FileList.tsx:37-49 | The effect leaves the shared focus as `Reclamped` of the old focus. |
| FileLists.FileList.ArrowDown | src/components/file-list/FileList.tsx:51-60 | The shared focus becomes `ArrowDownState` of the old focus. |
| FileLists.FileList.ArrowUp | src/components/file-list/FileList.tsx:61-66 | The shared focus becomes `ArrowUpState` of the old focus. |
| FileLists.FileList.ArrowSide | src/components/file-list/FileList.tsx:67-74 | A handler is called iff the list is active and the keymap has one, and it receives the selected index. The focus is left exactly as it was. |
| FileLists.FileList.Selected | src/components/file-list/FileList.tsx:82 | Whether a row is highlighted: this list holds the focus at that row. `FileLists.AtMostOneHighlight` states that at most one row of all lists is. |
| FileLists.AtMostOneHighlight | src/components/file-list/FileList.tsx:82 | Of all lists on one focus, at most one list and one row are highlighted. |
| FileLists.SelectingMovesFocus | src/components/file-list/FileList.tsx:27-35 | Selecting a row in one list takes the focus and every highlight away from every other list. |
| SaveDialog.Title | src/components/file-list/SaveImageDialog.tsx:33-48 | "teilweise gespeichert" iff there are errors and successes. "Fehler beim Speichern" iff there are errors and no successes. "erfolgreich gespeichert" iff there are no errors. |
| SaveDialog.TitleIgnoresGlobalErrors | src/components/file-list/SaveImageDialog.tsx:33-36 | The title depends neither on the global errors nor on the moved files. |
| SaveDialog.SortFailureTitledAsSaved | src/components/file-list/SaveImageDialog.tsx:33-48 | For a result of `file_operations::save_files` after a failed sort, the title is "erfolgreich gespeichert" and no removal is offered, although a global error is present. |
| SaveDialog.WithoutSavedAsWritten | src/components/file-list/SaveImageDialog.tsx:24-27 | The filter as written, over the records the accepted list holds: a record is compared with the saved path strings by `===`. The result is a subsequence of the accepted list. |
| SaveDialog.AsWrittenRemovesNothing | src/components/file-list/SaveImageDialog.tsx:24-27 | As written, the filter returns the accepted list unchanged, whatever was saved. |
| SaveDialog.SavedRecordKeptAsWritten | src/components/file-list/SaveImageDialog.tsx:24-27 | A record whose path was saved stays after the filter as written, and is dropped by the intended one. |
| SaveDialog.SavedRecordKeptExample | src/components/file-list/SaveImageDialog.tsx:24-27 | `{path: "/a.png"}` after saving "/a.png" stays with the filter as written, and is dropped by the intended one. |
| SaveDialog.WithoutSaved | src/components/file-list/SaveImageDialog.tsx:24-28 | The intended filter: the kept list is a subsequence of the accepted list, and an accepted record stays iff its path is not among the saved files. |
| SaveDialog.AsUserFiles | src/routes/main-screen/ImageOrganizer.tsx:82-86 | The records sent to `save_files` arrive as one `UserFile` each, in order, with the same path and tag. |
| SaveDialog.WithoutSavedIdempotent | src/components/file-list/SaveImageDialog.tsx:24-28 | Removing the saved files twice equals removing them once. |
| SaveDialog.WithoutSavedNothingSaved | src/components/file-list/SaveImageDialog.tsx:24-28 | When nothing was saved, the accepted list is kept as it is. |
| SaveDialog.RemovalKeepsFailedFiles | src/components/file-list/SaveImageDialog.tsx:22-31 | The filtered view is saved and the whole accepted list is filtered. With unique accepted paths and the intended filter, a record stays accepted iff it was not in the saved view, or its save failed. |
| SaveDialog.ViewPaths | src/routes/main-screen/ImageOrganizer.tsx:82-86 | With unique accepted paths, the saved view has distinct paths, and no accepted record outside the view shares a path with it. |
| SaveDialog.SubsequencePaths | src/routes/main-screen/ImageOrganizer.tsx:168-177 | The same for any records kept in order from the accepted list. |
| SaveDialog.SavedIffNotFailed | src-tauri/src/file_operations/mod.rs:64-117 | With distinct paths and no failed sort, a sent file is reported saved iff its outcome is not a failure. |
| SaveDialog.UnsentNotSaved | src-tauri/src/file_operations/mod.rs:30-121 | A path that was not sent is never reported saved. |
| SaveDialog.RemovalKeepsFailedFilesUnfiltered | src/components/file-list/SaveImageDialog.tsx:22-31 | With no tag selected, the whole accepted list is saved, and a record stays accepted iff its save failed. |
| SaveDialog.SaveImageDialog.constructor | src/components/file-list/SaveImageDialog.tsx:13 | The dialog starts closed. |
| SaveDialog.SaveImageDialog.OnResult | src/components/file-list/SaveImageDialog.tsx:16-20 | A present result opens the dialog, and the accepted list is untouched. |
| SaveDialog.SaveImageDialog.ClearAcceptedFiles | src/components/file-list/SaveImageDialog.tsx:22-31 | With a result, the records whose paths were saved are dropped from the accepted list, as intended (see "Findings"). Without one, the list stays as it is. The dialog closes either way. |
| SaveDialog.SaveImageDialog.Close | src/components/file-list/SaveImageDialog.tsx:50 | The dialog closes and nothing else changes. |
| Combobox.SelectedOptions | src/components/combobox/Combobox.tsx:70-72 | The selected options are a subsequence of the options, holding exactly those `isSelected` accepts. |
| Combobox.IsSelected | src/components/combobox/Combobox.tsx:101-103 | An option is selected when its value is in the list of values, or equals the one value. `Combobox.SelectedOptions` and the value lemmas state its consequences. |
| Combobox.SingleSelectsOneValue | src/components/combobox/Combobox.tsx:70-72 | With one value, every selected option carries that value. |
| Combobox.NullSelectsNothing | src/components/combobox/Combobox.tsx:70-72 | A null single value selects no option. |
| Combobox.OnSelect | src/components/combobox/Combobox.tsx:88-99 | The mode of the value is kept, and the popup closes iff only one value may be chosen. |
| Combobox.MultiSelectToggles | src/components/combobox/Combobox.tsx:89-94 | With several values, choosing an option flips whether it is selected, and every other value keeps its membership. |
| Combobox.MultiSelectTwiceRestores | src/components/combobox/Combobox.tsx:89-94 | Choosing an unselected option twice restores the list of values. |
| Combobox.SingleSelectReplaces | src/components/combobox/Combobox.tsx:95-98 | With one value, choosing the selected option gives `emptyValue`, and choosing any other gives that option's value. |
| Combobox.SingleSelectTwice | src/components/combobox/Combobox.tsx:95-98 | With the default `emptyValue`, choosing an option twice leaves the empty string. |
| Combobox.OptionPreview | src/components/combobox/Combobox.tsx:74-86 | The preview of the selected options. What it shows in each case is stated by `Combobox.PreviewContents`. |
| Combobox.PreviewContents | src/components/combobox/Combobox.tsx:74-86 | A custom preview receives the selected options. Above `maxPreviewCount`, the text is a decimal number equal to the count, followed by " ausgewählt". No selection shows "", one selection shows its label, and up to `maxPreviewCount` selections show their labels, in option order, joined by ", ". |
| Combobox.LabelPreview | src/components/combobox/Combobox.tsx:85 | The joined labels are "" for no option and the label for one. For more, they are the front's joined labels, then ", ", then the last label. |
| Combobox.CountPreview | src/components/combobox/Combobox.tsx:84 | The count text is decimal digits whose value is the count, followed by " ausgewählt". |
| Combobox.HasValue | src/components/combobox/Combobox.tsx:114 | `value && value.length > 0`: a non-empty list, or a non-empty string. The lemmas below state which text the closed box shows. |
| Combobox.DeselectShowsPlaceholder | src/components/combobox/Combobox.tsx:95-114 | With one value and the default `emptyValue`, choosing the selected option again leaves no value, and the closed box shows `emptyPreviewText` or "Option wählen...". |
| Combobox.LastDeselectShowsPlaceholder | src/components/combobox/Combobox.tsx:89-114 | With several values, choosing the only selected value again leaves none, and the closed box shows the placeholder. |
| Combobox.SelectionShowsPreview | src/components/combobox/Combobox.tsx:114 | A value that selects a listed option (a non-empty one in single mode) shows the preview. |
| Combobox.UnknownValueShowsEmptyPreview | src/components/combobox/Combobox.tsx:114 | A non-empty multi value that names no option shows the empty preview, not the placeholder. |
| CommandFilter.Lower | src/components/command/Command.tsx:16 | Lower-casing maps each character by itself and keeps the length. |
| CommandFilter.Prepare | src/components/command/Command.tsx:14-21 | `prepareSimpleFuzzySearch`. Its character-by-character meaning is stated by `CommandFilter.PrepareIsFold`, and its output alphabet by `CommandFilter.PreparedIsFolded`. |
| CommandFilter.Filter | src/components/command/Command.tsx:23-28 | The filter returns only 1 or 0. It returns 1 iff the prepared search occurs contiguously in the prepared value. |
| CommandFilter.PrepareOneChar | src/components/command/Command.tsx:14-21 | On one character, the chained replacements give the character's fold. |
| CommandFilter.PrepareIsFold | src/components/command/Command.tsx:14-21 | The lower-casing and the four chained replacements fold the input character by character. |
| CommandFilter.PreparedIsFolded | src/components/command/Command.tsx:14-21 | A prepared string holds no upper-case ASCII letter, no umlaut and no "ß". |
| CommandFilter.FilterByFold | src/components/command/Command.tsx:23-28 | The filter is 1 iff the folded search occurs contiguously in the folded value. |
| CommandFilter.EmptySearchMatchesAll | src/components/command/Command.tsx:24 | An empty search matches every value. |
| CommandFilter.CaseInsensitive | src/components/command/Command.tsx:16 | An upper-case letter or umlaut prepares like its lower-case form, and differs from itself once prepared. |
| CommandFilter.FoldCapitals | src/components/command/Command.tsx:16 | A string of upper-case ASCII letters folds to its lower-case form. |
| CommandFilter.FoldIgnoresCase | src/components/command/Command.tsx:16 | Every string folds like its lower-case form. |
| CommandFilter.PrepareIgnoresCase | src/components/command/Command.tsx:14-21 | Preparing the lower-case form of any string gives what preparing the string gives. |
| CommandFilter.FilterIgnoresCase | src/components/command/Command.tsx:13-29 | For every value and search, the filter answers as it does for their lower-case forms. |
| CommandFilter.UmlautsFolded | src/components/command/Command.tsx:17-20 | "Grüße" prepares to "grusse", and it matches the search "GRUSS". |
| CommandFilter.ContiguousOnly | src/components/command/Command.tsx:10-24 | "Quartal" does not match "alter". |
| StdPath.FileName | src-tauri/src/file_operations/mod.rs:65 | A file name is non-empty, is neither "." nor "..", and holds no '/'. |
| StdPath.JoinShape | src-tauri/src/file_operations/mod.rs:78 | An absolute segment replaces the base. A relative one follows the whole base, with a '/' right before the segment, added only when the base does not already end in one. |
| StdPath.JoinFileName | src-tauri/src/file_saving/file_sorting.rs:93-96 | The file name of dir joined with a plain name is that name. |
| FileSorting.GermanMonthName | src-tauri/src/file_saving/file_sorting.rs:41-57 | A name exists iff the month is 1..12; any other month panics. The names are non-empty and free of '%'. |
| FileSorting.MonthNamesDistinct | src-tauri/src/file_saving/file_sorting.rs:41-57 | No two months share a name. |
| FileSorting.YearText | src-tauri/src/file_saving/file_sorting.rs:60 | `%Y` becomes four decimal digits whose value is the year. |
| FileSorting.ShortYearText | src-tauri/src/file_saving/file_sorting.rs:61 | `%y` becomes two decimal digits whose value is the year mod 100. |
| FileSorting.MonthText | src-tauri/src/file_saving/file_sorting.rs:62 | `%m` becomes two decimal digits whose value is the month. |
| FileSorting.MonthNameText | src-tauri/src/file_saving/file_sorting.rs:63 | `%B` becomes the German name of the month. |
| FileSorting.InterpolateDateFormat | src-tauri/src/file_saving/file_sorting.rs:59-66 | The four replacement passes. What they amount to is stated by `FileSorting.InterpolateIsExpand` and the lemmas that follow it. |
| FileSorting.Expand | src-tauri/src/file_saving/file_sorting.rs:59-66 | The reference reading of the template: one left-to-right scan. It is tied to the passes by `FileSorting.InterpolateIsExpand`. |
| FileSorting.InterpolateIsExpand | src-tauri/src/file_saving/file_sorting.rs:59-66 | The replacements of %Y, %y, %m and %B, pass after pass, equal one left-to-right scan that replaces each placeholder and copies all other text. |
| FileSorting.TemplateWithoutPlaceholder | src-tauri/src/file_saving/file_sorting.rs:59-66 | A template without '%' is returned unchanged. |
| FileSorting.PrefixAndPlaceholder | src-tauri/src/file_saving/file_sorting.rs:59-66 | Plain text followed by one placeholder keeps the text and replaces the placeholder. |
| FileSorting.TwoPlaceholders | src-tauri/src/file_saving/file_sorting.rs:59-66 | Text, a placeholder, text and a placeholder: both texts are kept and both placeholders replaced. |
| FileSorting.YearOnly | src-tauri/src/file_saving/file_sorting.rs:120-123 | "%Y" in December 2024 gives "2024". |
| FileSorting.GreetingWithYear | src-tauri/src/file_saving/file_sorting.rs:124-127 | "Hello: %Y" in 2024 gives "Hello: 2024". |
| FileSorting.GreetingWithShortYear | src-tauri/src/file_saving/file_sorting.rs:129-132 | "Hello: %y" in 2024 gives "Hello: 24". |
| FileSorting.YearAndMonthNumber | src-tauri/src/file_saving/file_sorting.rs:134-137 | "Year %Y Month %m" in December 2024 gives "Year 2024 Month 12". |
| FileSorting.YearAndPaddedMonthNumber | src-tauri/src/file_saving/file_sorting.rs:138-141 | "Year %Y Month %m" in March 2024 gives "Year 2024 Month 03". |
| FileSorting.YearAndMonthNameDecember | src-tauri/src/file_saving/file_sorting.rs:143-146 | "Year %Y Month %B" in December 2024 gives "Year 2024 Month Dezember". |
| FileSorting.YearAndMonthNameMarch | src-tauri/src/file_saving/file_sorting.rs:147-150 | "Year %Y Month %B" in March 2024 gives "Year 2024 Month März". |
| FileSorting.StepError | src-tauri/src/file_saving/file_sorting.rs:78-96 | No error means the file has a date, its directory was created and it has a name. |
| FileSorting.StepErrorCases | src-tauri/src/file_saving/file_sorting.rs:78-96 | A missing date fails first, then a directory that was not created, then a missing name. Each error occurs exactly in its case. |
| FileSorting.Placement | src-tauri/src/file_saving/file_sorting.rs:77-98 | Where one file goes, or the error that stops the loop at it. `FileSorting.PlacementCases` states each case. |
| FileSorting.PlacementCases | src-tauri/src/file_saving/file_sorting.rs:77-98 | A file is placed iff none of the three steps fails. A failure carries the first failing step's error. A placed file goes to target/template/name. |
| FileSorting.PlaceFile | src-tauri/src/file_saving/file_sorting.rs:78-98 | One pass of the loop body computes the file's placement. |
| FileSorting.SortFiles | src-tauri/src/file_saving/file_sorting.rs:68-104 | It succeeds iff every file can be placed, and then returns one path per file in input order, each the file's placement. Otherwise it returns the error of the first file that cannot be placed. |
| FileSorting.SortedPathEndsInName | src-tauri/src/file_saving/file_sorting.rs:89-96 | A sorted path has the file's own name as its file name. |
| FileSorting.SortTestImage | src-tauri/src/file_saving/file_sorting.rs:170-192 | "./test/<name>", dated May 2023 and sorted with "%Y_%m" into "./new_dir", goes to "./new_dir/2023_05/<name>". |
| FileOperations.FileOutcome | src-tauri/src/file_operations/mod.rs:64-117 | Checks fail in this order: a file without a name gets "keinen Namen", then an existing destination gets "existiert bereits", and the transfer's error comes last. A file is saved iff none of these fails, and its destination is the sorted path or target/name. |
| FileOperations.HandleFile | src-tauri/src/file_operations/mod.rs:64-117 | One pass of the loop body enters the file's outcome into the result. |
| FileOperations.SaveFiles | src-tauri/src/file_operations/mod.rs:30-121 | The result is the sort failure alone, or every file's outcome entered in input order. |
| FileOperations.SaveFilesResult | src-tauri/src/file_operations/mod.rs:30-121 | What `save_files` reports. Its shape and classification are stated by `FileOperations.SortFailureAlone`, `FileOperations.EnteredShape` and `FileOperations.SaveFilesClassifies`. |
| FileOperations.SortStep | src-tauri/src/file_operations/mod.rs:46-61 | No sort variant gives no sorting. With one, sorting fails iff some file cannot be placed. A success gives one path per file, each that file's placement. |
| FileOperations.SortedFilesKeepNames | src-tauri/src/file_operations/mod.rs:64-79 | After a successful sort every file has a name, so the nameless error cannot occur, and each sorted destination has the file's own name. |
| FileOperations.SortFailureAlone | src-tauri/src/file_operations/mod.rs:46-58 | A failed sort gives exactly one global error and empty saved, error and move collections. |
| FileOperations.EnteredShape | src-tauri/src/file_operations/mod.rs:63-118 | Without a sort failure there is no global error. The saved paths keep input order, errors concern input paths and moves concern saved paths. Copying records no move. |
| FileOperations.RecordClassifiesNew | src-tauri/src/file_operations/mod.rs:67-116 | Entering an outcome for a new path lists it as failed with its message, or as saved (and moved to its destination under MOVE). |
| FileOperations.RecordKeepsOthers | src-tauri/src/file_operations/mod.rs:67-116 | Entering one path leaves every other path's classification alone. |
| FileOperations.NextPathFresh | src-tauri/src/file_operations/mod.rs:63-118 | With distinct paths, the next path is nowhere in the result so far. |
| FileOperations.EnteredClassifies | src-tauri/src/file_operations/mod.rs:63-118 | With distinct paths, each entered path is listed exactly as its outcome says: an error or a success, never both. |
| FileOperations.SaveFilesClassifies | src-tauri/src/file_operations/mod.rs:63-118 | With distinct paths and no sort failure, there is no global error and the saved paths keep input order. Each file is listed as saved or failed as its outcome says. |

## Left out

**Interface code, I/O and frameworks**
- File dialogs, `saveImages`, the `invoke("save_files")` call and the `api.ts` wrapper are I/O and inter-process calls. Only the filter applied to the picked paths (`Triage.Imported`) and the result handling are modelled.
- React scheduling is not modelled: effects, stale closures and `useMemo` dependencies. Each handler is one sequential state change, and the re-clamping effect (`FileLists.FileList.Reclamp`) and the selection pruning (`Triage.TriageStore.PruneSelectedTags`) are methods that a caller invokes.
- Markup-only components, the hover state of the combobox and what a caller's `previewFn` draws are not modelled. `Combobox.PreviewContents` only states which options `previewFn` receives.
- `FocusContext.UseFocusContext`: throwing an `Error` is modelled as a `Failure` result.

**Rust back end and file system**
- The file system is not modelled. EXIF reading, file metadata, `create_dir_all`, `exists`, `copy` and `rename` appear only as their answers: `FileSorting.SourceFile` and `FileOperations.FileSystem`. The text of an I/O error is the transfer error string given for each file.
- `save_delete_files` and `main.rs` (the bootstrap, `greet` and an older copy of `save_files`) are not part of this model.
- StdPath.FileName: only '/'-separated Unix paths are modelled. Windows prefixes and `\` separators in Rust paths are not modelled, and neither is the unwrap of a non-UTF-8 path (`to_str().unwrap()`).
- FileSorting.Date: a date is a year in 0..9999 and a month. Days and times do not reach the template: `%d`, `%H` and the rest are not replaced by `interpolate_date_format`. chrono's rendering of years outside 0..9999 is left out.
- FileSorting.SortFiles: only the `CreationDate` variant exists in the source, and it is the one modelled.
- FileSorting.StepError: its own contract states only the "no error" direction. The case-by-case iff forms are in `FileSorting.StepErrorCases`.

**Locale, object identity and out-of-range indices**
- CommandFilter.LowerChar: `toLocaleLowerCase` is modelled for ASCII letters and the German umlauts only.
- Triage.FileTags: lodash `sortBy` is modelled as the strict order of character codes (`Strings.Less`), which is how JavaScript compares strings of basic-plane characters. Surrogate pairs are not modelled.
- FileLists.FileList, FocusContext.FocusState: the lists are given records, so `setFile` stores a record. The model keeps only file paths there, because only the indices and the lengths of the lists decide any behaviour.
- Triage.TriageStore.TagFile: the source mutates the shared record object. That alias is not modelled, so a record copied elsewhere (another list or a save result) is not retagged. The method requires an index in range, where the source would throw.
- Triage.TriageStore.AcceptFile, Triage.TriageStore.UnacceptFile: both require an index in range. For any other index the source would append `undefined` to the other list.
- Triage.FilteredIndexToUnfiltered: it requires an index into the filtered view. The source would throw on `undefined.path` for any other index.
- SaveDialog.SaveImageDialog.ClearAcceptedFiles: the method applies the intended filter (`SaveDialog.WithoutSaved`). The filter as written is `SaveDialog.WithoutSavedAsWritten`, which removes nothing (see "Findings").
- FileLists.FileAt, FocusContext.UseFocusContext and Combobox.TriggerContent have no row of their own: each is a case split with no property beyond it. Their effect is stated by `FileLists.SelectRowEffect` and by the lemmas about the closed box.

**Behaviour a user might expect that the code does not implement**
The model follows the code in each of these points:
- The import does not reject non-image extensions beyond requiring some extension, and it does not merge repeats within a batch.
- One `(fileListId, selectedIndex)` pair is shared by all lists, so no list remembers its own position.
- There is no preview window of neighbouring files.
- Accepted records are not renamed to their new paths after a move.

## Findings

| source | as written | input that shows it | evidently intended | confidence | as-written member | corrected member |
|---|---|---|---|---|---|---|
| src/components/file-list/SaveImageDialog.tsx:24-27 | `acceptedFiles.filter((file) => !successfully_saved_files.includes(file))`. The accepted list holds `{path, tag}` records (src/routes/main-screen/ImageOrganizer.tsx:71-76), while the saved list holds path strings, so `includes` never matches and "Gespeicherte entfernen" removes nothing. | accepted `[{path: "/a.png"}]`, saved `["/a.png"]`: the record stays. | Compare each record's `path` with the saved paths, so that exactly the saved records leave the list. | not executed; the context declares both lists as `string[]` (src/routes/main-screen/organizerContext.tsx:3-6) while the organizer stores records in them | SaveDialog.WithoutSavedAsWritten, SaveDialog.SavedRecordKeptExample | SaveDialog.WithoutSaved |
