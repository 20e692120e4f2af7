// The dialog that reports a save (src/components/file-list/SaveImageDialog.tsx):
// it opens when a save result arrives, titles itself after the result, and
// offers to drop the saved files from the accepted list.

module SaveDialog {
  import opened Wrappers
  import opened Seqs
  import opened SaveModel
  import FileOperations
  import Triage

  /** `hasError`: a result is present and at least one path has an error. */
  predicate HasError(result: Option<SaveResult>)
  {
    result.Some? && |result.value.errors| > 0
  }

  /** `success`: a result is present and at least one path was saved. */
  predicate Success(result: Option<SaveResult>)
  {
    result.Some? && |result.value.successfullySavedFiles| > 0
  }

  const PartlySavedTitle := "Dateien teilweise gespeichert"
  const FailedTitle := "Fehler beim Speichern"
  const SavedTitle := "Dateien erfolgreich gespeichert"

  /** The heading of the dialog. */
  function Title(result: Option<SaveResult>): (r: string)
    ensures r == PartlySavedTitle <==> HasError(result) && Success(result)
    ensures r == FailedTitle <==> HasError(result) && !Success(result)
    ensures r == SavedTitle <==> !HasError(result)
  {
    if HasError(result) && Success(result) then PartlySavedTitle
    else if HasError(result) then FailedTitle
    else SavedTitle
  }

  /** Whether the dialog shows the button that removes the saved files. */
  predicate OffersRemoval(result: Option<SaveResult>)
  {
    Success(result)
  }

  /** The heading never depends on the global errors, nor on where moved files went. */
  lemma TitleIgnoresGlobalErrors(r: SaveResult, globalErrors: seq<string>, renamed: map<string, string>)
    ensures Title(Some(r.(globalErrors := globalErrors, renamedFiles := renamed))) == Title(Some(r))
  {
  }

  /**
   * A save whose sorting failed reports only a global error, so the dialog
   * announces success and offers nothing to remove.
   */
  lemma SortFailureTitledAsSaved(files: seq<FileOperations.UserFile>, targetDirectory: string,
                                 action: FileOperations.SaveAction, fs: FileOperations.FileSystem)
    requires FileOperations.WellFormed(files, FileOperations.SortFailed, fs)
    ensures var r := FileOperations.SaveFilesResult(files, targetDirectory, action, FileOperations.SortFailed, fs);
      Title(Some(r)) == SavedTitle && !OffersRemoval(Some(r)) && r.globalErrors != []
  {
    FileOperations.SortFailureAlone(files, targetDirectory, action, fs);
  }

  /**
   * What the accepted list holds and what `includes` compares: the list is
   * filled with file records, objects at run time, while the result lists
   * saved paths as strings.
   */
  datatype Value = Str(text: string) | Record(file: Triage.FileRecord)

  /** `s === v` for a string `s`: only a string with the same characters is equal to it. */
  predicate StrictEqualsString(s: string, v: Value)
  {
    v.Str? && v.text == s
  }

  /** `saved.includes(v)` on an array of strings. */
  predicate Includes(saved: seq<string>, v: Value)
  {
    exists k :: 0 <= k < |saved| && StrictEqualsString(saved[k], v)
  }

  /** The filter of `clearAcceptedFiles` as written: keep a record unless the saved paths include the record itself. */
  function WithoutSavedAsWritten(accepted: seq<Triage.FileRecord>, result: SaveResult): (r: seq<Triage.FileRecord>)
    ensures IsSubsequence(r, accepted)
  {
    Filter(accepted, (f: Triage.FileRecord) => !Includes(result.successfullySavedFiles, Record(f)))
  }

  /** As written, no string equals a record, so the filter removes nothing whatever was saved. */
  lemma AsWrittenRemovesNothing(accepted: seq<Triage.FileRecord>, result: SaveResult)
    ensures WithoutSavedAsWritten(accepted, result) == accepted
  {
    FilterKeepsAll(accepted, (f: Triage.FileRecord) => !Includes(result.successfullySavedFiles, Record(f)));
  }

  /** The accepted records whose path the result does not list as saved, in their order. */
  function WithoutSaved(accepted: seq<Triage.FileRecord>, result: SaveResult): (r: seq<Triage.FileRecord>)
    ensures IsSubsequence(r, accepted)
    ensures forall f | f in r :: f.path !in result.successfullySavedFiles
    ensures forall f | f in accepted :: f in r <==> f.path !in result.successfullySavedFiles
  {
    Filter(accepted, (f: Triage.FileRecord) => f.path !in result.successfullySavedFiles)
  }

  /** A saved record survives the filter as written but not the intended one. */
  lemma SavedRecordKeptAsWritten(f: Triage.FileRecord, result: SaveResult)
    requires f.path in result.successfullySavedFiles
    ensures WithoutSavedAsWritten([f], result) == [f]
    ensures WithoutSaved([f], result) == []
  {
    AsWrittenRemovesNothing([f], result);
    assert f !in WithoutSaved([f], result);
  }

  /** The record `{path: "/a.png"}` after "/a.png" was saved. */
  lemma SavedRecordKeptExample()
    ensures var f := Triage.FileRecord("/a.png", None);
      var result := SaveResult(["/a.png"], map[], [], map[]);
      WithoutSavedAsWritten([f], result) == [f] && WithoutSaved([f], result) == []
  {
    var f := Triage.FileRecord("/a.png", None);
    SavedRecordKeptAsWritten(f, SaveResult(["/a.png"], map[], [], map[]));
  }

  /** Removing the saved records a second time removes nothing more. */
  lemma WithoutSavedIdempotent(accepted: seq<Triage.FileRecord>, result: SaveResult)
    ensures WithoutSaved(WithoutSaved(accepted, result), result) == WithoutSaved(accepted, result)
  {
    var once := WithoutSaved(accepted, result);
    FilterKeepsAll(once, (f: Triage.FileRecord) => f.path !in result.successfullySavedFiles);
  }

  /** When nothing was saved the accepted list is kept as it is. */
  lemma WithoutSavedNothingSaved(accepted: seq<Triage.FileRecord>, result: SaveResult)
    requires result.successfullySavedFiles == []
    ensures WithoutSaved(accepted, result) == accepted
  {
    FilterKeepsAll(accepted, (f: Triage.FileRecord) => f.path !in result.successfullySavedFiles);
  }

  /** The accepted records as `save_files` receives them: each deserialized into a `UserFile`. */
  function AsUserFiles(accepted: seq<Triage.FileRecord>): (files: seq<FileOperations.UserFile>)
    ensures |files| == |accepted|
    ensures forall i :: 0 <= i < |files| ==> files[i].path == accepted[i].path && files[i].tag == accepted[i].tag
  {
    seq(|accepted|, i requires 0 <= i < |accepted| => FileOperations.UserFile(accepted[i].path, accepted[i].tag))
  }

  /**
   * `saveImages` saves the filtered view of the accepted list, while the
   * removal filters the whole accepted list. With unique paths, an accepted
   * record is kept by the intended removal exactly when it was not in the
   * view that was saved, or its save failed.
   */
  lemma RemovalKeepsFailedFiles(accepted: seq<Triage.FileRecord>, selected: seq<string>, targetDirectory: string,
                                action: FileOperations.SaveAction, sorting: FileOperations.Sorting,
                                fs: FileOperations.FileSystem, k: int)
    requires forall i, j :: 0 <= i < j < |accepted| ==> accepted[i].path != accepted[j].path
    requires FileOperations.WellFormed(AsUserFiles(Triage.FilteredView(accepted, selected)), sorting, fs)
    requires !sorting.SortFailed? && 0 <= k < |accepted|
    ensures var view := Triage.FilteredView(accepted, selected);
      var files := AsUserFiles(view);
      var r := FileOperations.SaveFilesResult(files, targetDirectory, action, sorting, fs);
      accepted[k] in WithoutSaved(accepted, r) <==>
        accepted[k] !in view ||
        exists j :: 0 <= j < |view| && view[j] == accepted[k] &&
          FileOperations.FileOutcome(files, targetDirectory, sorting, fs, j).Failed?
  {
    var view := Triage.FilteredView(accepted, selected);
    var files := AsUserFiles(view);
    var ps := FileOperations.Paths(files);
    ViewPaths(accepted, selected);
    var r := FileOperations.SaveFilesResult(files, targetDirectory, action, sorting, fs);
    var x := accepted[k];
    if x in view {
      var j :| 0 <= j < |view| && view[j] == x;
      assert ps[j] == x.path;
      SavedIffNotFailed(files, targetDirectory, action, sorting, fs, j);
      assert forall j' :: 0 <= j' < |view| && view[j'] == x ==> j' == j by {
        assert forall j' :: 0 <= j' < |view| && view[j'] == x ==> ps[j'] == ps[j];
      }
    } else {
      UnsentNotSaved(files, targetDirectory, action, sorting, fs, x.path);
    }
  }

  /** A file that was sent is reported saved exactly when its outcome is not a failure. */
  lemma SavedIffNotFailed(files: seq<FileOperations.UserFile>, targetDirectory: string,
                          action: FileOperations.SaveAction, sorting: FileOperations.Sorting,
                          fs: FileOperations.FileSystem, j: int)
    requires FileOperations.WellFormed(files, sorting, fs) && Distinct(FileOperations.Paths(files))
    requires !sorting.SortFailed? && 0 <= j < |files|
    ensures var r := FileOperations.SaveFilesResult(files, targetDirectory, action, sorting, fs);
      files[j].path in r.successfullySavedFiles <==>
        !FileOperations.FileOutcome(files, targetDirectory, sorting, fs, j).Failed?
  {
    FileOperations.SaveFilesClassifies(files, targetDirectory, action, sorting, fs);
  }

  /** A path that was not sent is never reported saved. */
  lemma UnsentNotSaved(files: seq<FileOperations.UserFile>, targetDirectory: string,
                       action: FileOperations.SaveAction, sorting: FileOperations.Sorting,
                       fs: FileOperations.FileSystem, path: string)
    requires FileOperations.WellFormed(files, sorting, fs) && Distinct(FileOperations.Paths(files))
    requires !sorting.SortFailed? && path !in FileOperations.Paths(files)
    ensures path !in FileOperations.SaveFilesResult(files, targetDirectory, action, sorting, fs).successfullySavedFiles
  {
    var r := FileOperations.SaveFilesResult(files, targetDirectory, action, sorting, fs);
    FileOperations.SaveFilesClassifies(files, targetDirectory, action, sorting, fs);
    if path in r.successfullySavedFiles {
      SubsequenceMembers(r.successfullySavedFiles, FileOperations.Paths(files), path);
      assert false;
    }
  }

  /** The saved view has distinct paths, and no accepted record outside it shares a path with it. */
  lemma ViewPaths(accepted: seq<Triage.FileRecord>, selected: seq<string>)
    requires forall i, j :: 0 <= i < j < |accepted| ==> accepted[i].path != accepted[j].path
    ensures var view := Triage.FilteredView(accepted, selected);
      var ps := FileOperations.Paths(AsUserFiles(view));
      Distinct(ps) && forall k | 0 <= k < |accepted| && accepted[k] !in view :: accepted[k].path !in ps
  {
    Triage.FilteredViewMembers(accepted, selected);
    SubsequencePaths(Triage.FilteredView(accepted, selected), accepted);
  }

  /** What `ViewPaths` states, for any records kept from the accepted list in order. */
  lemma SubsequencePaths(view: seq<Triage.FileRecord>, accepted: seq<Triage.FileRecord>)
    requires forall i, j :: 0 <= i < j < |accepted| ==> accepted[i].path != accepted[j].path
    requires IsSubsequence(view, accepted)
    ensures var ps := FileOperations.Paths(AsUserFiles(view));
      Distinct(ps) && forall k | 0 <= k < |accepted| && accepted[k] !in view :: accepted[k].path !in ps
  {
    var ps := FileOperations.Paths(AsUserFiles(view));
    Triage.SubsequenceKeepsUniquePaths(view, accepted);
    assert forall i :: 0 <= i < |ps| ==> ps[i] == view[i].path;
    forall k, j | 0 <= k < |accepted| && accepted[k] !in view && 0 <= j < |ps|
      ensures ps[j] != accepted[k].path
    {
      SubsequenceMembers(view, accepted, view[j]);
      var m :| 0 <= m < |accepted| && accepted[m] == view[j];
    }
  }

  /** With no tag selected the whole accepted list is saved, and exactly the failed records stay. */
  lemma RemovalKeepsFailedFilesUnfiltered(accepted: seq<Triage.FileRecord>, targetDirectory: string,
                                          action: FileOperations.SaveAction, sorting: FileOperations.Sorting,
                                          fs: FileOperations.FileSystem, k: int)
    requires forall i, j :: 0 <= i < j < |accepted| ==> accepted[i].path != accepted[j].path
    requires FileOperations.WellFormed(AsUserFiles(accepted), sorting, fs)
    requires !sorting.SortFailed? && 0 <= k < |accepted|
    ensures var files := AsUserFiles(accepted);
      var r := FileOperations.SaveFilesResult(files, targetDirectory, action, sorting, fs);
      accepted[k] in WithoutSaved(accepted, r) <==>
        FileOperations.FileOutcome(files, targetDirectory, sorting, fs, k).Failed?
  {
    Triage.FilteredViewMembers(accepted, []);
    RemovalKeepsFailedFiles(accepted, [], targetDirectory, action, sorting, fs, k);
    assert forall j :: 0 <= j < |accepted| && accepted[j] == accepted[k] ==> j == k;
  }

  /** The dialog's own state and, through the organizer context, the accepted list it may shorten. */
  class SaveImageDialog {
    var open: bool
    var acceptedFiles: seq<Triage.FileRecord>

    constructor(acceptedFiles: seq<Triage.FileRecord>)
      ensures !open && this.acceptedFiles == acceptedFiles
    {
      open := false;
      this.acceptedFiles := acceptedFiles;
    }

    /** The effect on a new result: a present result opens the dialog. */
    method OnResult(result: Option<SaveResult>)
      modifies this
      ensures open == (result.Some? || old(open))
      ensures acceptedFiles == old(acceptedFiles)
    {
      if result.Some? {
        open := true;
      }
    }

    /** `clearAcceptedFiles`, as intended: drop the saved records when there is a result, then close. */
    method ClearAcceptedFiles(result: Option<SaveResult>)
      modifies this
      ensures !open
      ensures acceptedFiles == if result.Some? then WithoutSaved(old(acceptedFiles), result.value) else old(acceptedFiles)
    {
      if result.Some? {
        acceptedFiles := WithoutSaved(acceptedFiles, result.value);
      }
      open := false;
    }

    /** The close button. */
    method Close()
      modifies this
      ensures !open && acceptedFiles == old(acceptedFiles)
    {
      open := false;
    }
  }
}
