// Saving the accepted files into the target directory (src-tauri
// file_operations/mod.rs, `save_files`). The file system is not modelled:
// its answers for each file are parameters.

module FileOperations {
  import opened Wrappers
  import opened Seqs
  import opened SaveModel
  import StdPath
  import FileSorting

  datatype SaveAction = Copy | Move

  /** A file as the interface sends it; the tag is carried but not used when saving. */
  datatype UserFile = UserFile(path: string, tag: Option<string>)

  /**
   * What asking `sort_files` gave: no sort variant was chosen, sorting
   * failed, or one sorted destination per file.
   */
  datatype Sorting = NoSorting | SortFailed | Sorted(paths: seq<string>)

  /**
   * The file system's answers for the file at each position: whether its
   * destination already exists, and the error the copy or rename reports
   * (`None`: it succeeds).
   */
  datatype FileSystem = FileSystem(destinationExists: seq<bool>, transferErrors: seq<Option<string>>)

  const SortFailedMessage := "Die Ordner, welche zum sortieren erstellt werden sollten, konnten nicht erzeugt werden"
  const NoNameMessage := "Datei scheint keinen Namen zu haben"
  const ExistsMessage := "Die Datei existiert bereits"

  /** One answer per file, and one sorted destination per file (`sort_files` returns one per input). */
  predicate WellFormed(files: seq<UserFile>, sorting: Sorting, fs: FileSystem)
  {
    |fs.destinationExists| == |files| && |fs.transferErrors| == |files| &&
    (sorting.Sorted? ==> |sorting.paths| == |files|)
  }

  /** How handling one file ends. */
  datatype Outcome = Failed(message: string) | Saved(destination: string)

  /** The destination of file `i`: its sorted path, or the target directory joined with its name. */
  function Destination(files: seq<UserFile>, targetDirectory: string, sorting: Sorting, fs: FileSystem, i: nat): string
    requires WellFormed(files, sorting, fs) && i < |files|
    requires StdPath.FileName(files[i].path).Some?
  {
    if sorting.Sorted? then sorting.paths[i]
    else StdPath.Join(targetDirectory, StdPath.FileName(files[i].path).value)
  }

  /**
   * How handling file `i` ends: a file without a name fails before anything
   * else is looked at, an existing destination fails before any transfer
   * is tried, and otherwise the transfer's own answer decides.
   */
  function FileOutcome(files: seq<UserFile>, targetDirectory: string, sorting: Sorting, fs: FileSystem, i: nat): (r: Outcome)
    requires WellFormed(files, sorting, fs) && i < |files|
    ensures StdPath.FileName(files[i].path).None? ==> r == Failed(NoNameMessage)
    ensures StdPath.FileName(files[i].path).Some? && fs.destinationExists[i] ==> r == Failed(ExistsMessage)
    ensures r.Saved? <==>
      StdPath.FileName(files[i].path).Some? && !fs.destinationExists[i] && fs.transferErrors[i].None?
    ensures r.Saved? ==> r.destination == Destination(files, targetDirectory, sorting, fs, i)
  {
    if StdPath.FileName(files[i].path).None? then Failed(NoNameMessage)
    else if fs.destinationExists[i] then Failed(ExistsMessage)
    else if fs.transferErrors[i].Some? then Failed(fs.transferErrors[i].value)
    else Saved(Destination(files, targetDirectory, sorting, fs, i))
  }

  /** The result after entering the outcome for `path`. */
  function Record(result: SaveResult, path: string, outcome: Outcome, action: SaveAction): SaveResult
  {
    match outcome
    case Failed(message) => result.(errors := result.errors[path := message])
    case Saved(destination) =>
      result.(successfullySavedFiles := result.successfullySavedFiles + [path],
              renamedFiles := if action == Move then result.renamedFiles[path := destination] else result.renamedFiles)
  }

  /** Every file's outcome, in input order. */
  function Outcomes(files: seq<UserFile>, targetDirectory: string, sorting: Sorting, fs: FileSystem): (r: seq<Outcome>)
    requires WellFormed(files, sorting, fs)
    ensures |r| == |files|
    ensures forall i :: 0 <= i < |files| ==> r[i] == FileOutcome(files, targetDirectory, sorting, fs, i)
  {
    seq(|files|, i requires 0 <= i < |files| => FileOutcome(files, targetDirectory, sorting, fs, i))
  }

  function Paths(files: seq<UserFile>): (r: seq<string>)
    ensures |r| == |files| && forall i :: 0 <= i < |files| ==> r[i] == files[i].path
  {
    seq(|files|, i requires 0 <= i < |files| => files[i].path)
  }

  /**
   * The sorting step of `save_files`: without a sort variant there is no
   * sorting; otherwise `sort_files` runs on the files with the variant's
   * date format, and its failure or its paths are kept. `sources` are the
   * files as `sort_files` sees them, with the file system's answers.
   */
  method SortStep(format: Option<string>, sources: seq<FileSorting.SourceFile>, targetDirectory: string)
    returns (sorting: Sorting)
    ensures sorting.NoSorting? <==> format.None?
    ensures format.Some? ==>
      (sorting.SortFailed? <==>
        exists i :: 0 <= i < |sources| && FileSorting.Placement(format.value, targetDirectory, sources[i]).Failure?)
    ensures sorting.Sorted? ==> format.Some? && |sorting.paths| == |sources|
    ensures sorting.Sorted? && format.Some? ==> forall i :: 0 <= i < |sources| ==>
      Success(sorting.paths[i]) == FileSorting.Placement(format.value, targetDirectory, sources[i])
  {
    if format.None? {
      return NoSorting;
    }
    var r := FileSorting.SortFiles(format.value, sources, targetDirectory);
    if r.Failure? {
      return SortFailed;
    }
    return Sorted(r.value);
  }

  /**
   * When sorting succeeded, every file has a name, so the nameless branch of
   * the loop is never taken, and its sorted destination keeps that name.
   */
  lemma SortedFilesKeepNames(files: seq<UserFile>, sources: seq<FileSorting.SourceFile>, format: string,
                             targetDirectory: string, paths: seq<string>, i: int)
    requires |sources| == |files| && forall k :: 0 <= k < |files| ==> sources[k].path == files[k].path
    requires |paths| == |files| && forall k :: 0 <= k < |files| ==>
      Success(paths[k]) == FileSorting.Placement(format, targetDirectory, sources[k])
    requires 0 <= i < |files|
    ensures StdPath.FileName(files[i].path).Some?
    ensures StdPath.FileName(paths[i]) == StdPath.FileName(files[i].path)
  {
    FileSorting.PlacementCases(format, targetDirectory, sources[i]);
    FileSorting.SortedPathEndsInName(format, targetDirectory, sources[i].creationDate.value, files[i].path);
  }

  /** The result after the outcomes of the first `n` paths have been entered, starting from the empty result. */
  function Entered(paths: seq<string>, outcomes: seq<Outcome>, action: SaveAction, n: nat): SaveResult
    requires |outcomes| == |paths| && n <= |paths|
    decreases n
  {
    if n == 0 then EmptyResult
    else Record(Entered(paths, outcomes, action, n - 1), paths[n - 1], outcomes[n - 1], action)
  }

  /** What `save_files` reports: the sort failure alone, or every file's outcome. */
  function SaveFilesResult(files: seq<UserFile>, targetDirectory: string, action: SaveAction, sorting: Sorting,
                           fs: FileSystem): SaveResult
    requires WellFormed(files, sorting, fs)
  {
    if sorting.SortFailed? then EmptyResult.(globalErrors := [SortFailedMessage])
    else Entered(Paths(files), Outcomes(files, targetDirectory, sorting, fs), action, |files|)
  }

  /** `save_files`: fill the result file by file, skipping to the next file on each error. */
  method SaveFiles(files: seq<UserFile>, targetDirectory: string, action: SaveAction, sorting: Sorting,
                   fs: FileSystem) returns (result: SaveResult)
    requires WellFormed(files, sorting, fs)
    ensures result == SaveFilesResult(files, targetDirectory, action, sorting, fs)
  {
    result := SaveResult([], map[], [], map[]);
    if sorting.SortFailed? {
      result := result.(globalErrors := result.globalErrors + [SortFailedMessage]);
      return;
    }
    var i := 0;
    while i < |files|
      invariant 0 <= i <= |files|
      invariant result == Entered(Paths(files), Outcomes(files, targetDirectory, sorting, fs), action, i)
    {
      result := HandleFile(result, files, targetDirectory, action, sorting, fs, i);
      i := i + 1;
    }
  }

  /** One pass of the loop body of `save_files`: file `i` is classified and entered into the result. */
  method HandleFile(result: SaveResult, files: seq<UserFile>, targetDirectory: string, action: SaveAction,
                    sorting: Sorting, fs: FileSystem, i: nat) returns (next: SaveResult)
    requires WellFormed(files, sorting, fs) && i < |files|
    ensures next == Record(result, files[i].path, FileOutcome(files, targetDirectory, sorting, fs, i), action)
  {
    var path := files[i].path;
    var fileName := StdPath.FileName(path);
    if fileName.None? {
      next := result.(errors := result.errors[path := NoNameMessage]);
      return;
    }
    var destination := if sorting.Sorted? then sorting.paths[i] else StdPath.Join(targetDirectory, fileName.value);
    if fs.destinationExists[i] {
      next := result.(errors := result.errors[path := ExistsMessage]);
      return;
    }
    match fs.transferErrors[i]
    case Some(message) =>
      next := result.(errors := result.errors[path := message]);
    case None =>
      next := result.(successfullySavedFiles := result.successfullySavedFiles + [path]);
      if action == Move {
        next := next.(renamedFiles := next.renamedFiles[path := destination]);
      }
  }

  // ---- what the result says ----

  /** A failed sort is reported by its one global error and nothing else. */
  lemma SortFailureAlone(files: seq<UserFile>, targetDirectory: string, action: SaveAction, fs: FileSystem)
    requires WellFormed(files, SortFailed, fs)
    ensures SaveFilesResult(files, targetDirectory, action, SortFailed, fs) ==
      SaveResult([], map[], [SortFailedMessage], map[])
  {
  }

  /**
   * No global error, the saved paths are entered paths in their order,
   * every error concerns an entered path, moves only happen to saved paths,
   * and copying records no move.
   */
  lemma {:induction false} EnteredShape(paths: seq<string>, outcomes: seq<Outcome>, action: SaveAction, n: nat)
    requires |outcomes| == |paths| && n <= |paths|
    ensures var r := Entered(paths, outcomes, action, n);
      r.globalErrors == [] &&
      IsSubsequence(r.successfullySavedFiles, paths[..n]) &&
      (forall p | p in r.errors :: p in paths[..n]) &&
      (forall p | p in r.renamedFiles :: p in r.successfullySavedFiles) &&
      (action == Copy ==> r.renamedFiles == map[])
    decreases n
  {
    if n > 0 {
      EnteredShape(paths, outcomes, action, n - 1);
      var prev := Entered(paths, outcomes, action, n - 1);
      assert paths[..n] == paths[..n - 1] + [paths[n - 1]];
      if outcomes[n - 1].Saved? {
        SubsequenceAppend(prev.successfullySavedFiles, paths[..n - 1], paths[n - 1]);
      } else {
        SubsequenceExtend(prev.successfullySavedFiles, paths[..n - 1], paths[n - 1]);
      }
    }
  }

  /** `path` is recorded in `r` as `outcome` says, and nowhere else. */
  predicate ClassifiedIn(r: SaveResult, path: string, outcome: Outcome, action: SaveAction)
  {
    match outcome
    case Failed(message) =>
      path in r.errors && r.errors[path] == message &&
      path !in r.successfullySavedFiles && path !in r.renamedFiles
    case Saved(destination) =>
      path in r.successfullySavedFiles && path !in r.errors &&
      (action == Move ==> path in r.renamedFiles && r.renamedFiles[path] == destination) &&
      (action == Copy ==> path !in r.renamedFiles)
  }

  /** Entering an outcome for a path not yet in the result classifies that path by the outcome. */
  lemma RecordClassifiesNew(prev: SaveResult, path: string, outcome: Outcome, action: SaveAction)
    requires path !in prev.errors && path !in prev.successfullySavedFiles && path !in prev.renamedFiles
    ensures ClassifiedIn(Record(prev, path, outcome, action), path, outcome, action)
  {
  }

  /** Entering an outcome for one path leaves the classification of every other path alone. */
  lemma RecordKeepsOthers(prev: SaveResult, path: string, outcome: Outcome, action: SaveAction,
                          other: string, otherOutcome: Outcome)
    requires other != path && ClassifiedIn(prev, other, otherOutcome, action)
    ensures ClassifiedIn(Record(prev, path, outcome, action), other, otherOutcome, action)
  {
  }

  /** With distinct paths, path `n` appears nowhere in the result of the first `n` entries. */
  lemma NextPathFresh(paths: seq<string>, outcomes: seq<Outcome>, action: SaveAction, n: nat)
    requires |outcomes| == |paths| && n < |paths| && Distinct(paths)
    ensures var prev := Entered(paths, outcomes, action, n);
      paths[n] !in prev.errors && paths[n] !in prev.successfullySavedFiles && paths[n] !in prev.renamedFiles
  {
    EnteredShape(paths, outcomes, action, n);
    var prev := Entered(paths, outcomes, action, n);
    if paths[n] in prev.successfullySavedFiles {
      SubsequenceMembers(prev.successfullySavedFiles, paths[..n], paths[n]);
    }
  }

  /**
   * For distinct paths, each of the first `n` paths is either an error,
   * under its outcome's message, or a success, never both; a moved path's
   * destination is recorded under it.
   */
  lemma {:induction false} EnteredClassifies(paths: seq<string>, outcomes: seq<Outcome>, action: SaveAction, n: nat)
    requires |outcomes| == |paths| && n <= |paths| && Distinct(paths)
    ensures forall i :: 0 <= i < n ==> ClassifiedIn(Entered(paths, outcomes, action, n), paths[i], outcomes[i], action)
    decreases n
  {
    if n > 0 {
      EnteredClassifies(paths, outcomes, action, n - 1);
      NextPathFresh(paths, outcomes, action, n - 1);
      var prev := Entered(paths, outcomes, action, n - 1);
      RecordClassifiesNew(prev, paths[n - 1], outcomes[n - 1], action);
      forall i | 0 <= i < n - 1
        ensures ClassifiedIn(Entered(paths, outcomes, action, n), paths[i], outcomes[i], action)
      {
        RecordKeepsOthers(prev, paths[n - 1], outcomes[n - 1], action, paths[i], outcomes[i]);
      }
    }
  }

  /**
   * The complete save, for distinct input paths and no sort failure: no
   * global error, the saved paths are input paths in input order, and each
   * file is listed as saved or as failed exactly as its outcome says.
   */
  lemma SaveFilesClassifies(files: seq<UserFile>, targetDirectory: string, action: SaveAction,
                            sorting: Sorting, fs: FileSystem)
    requires WellFormed(files, sorting, fs) && Distinct(Paths(files)) && !sorting.SortFailed?
    ensures var r := SaveFilesResult(files, targetDirectory, action, sorting, fs);
      r.globalErrors == [] &&
      IsSubsequence(r.successfullySavedFiles, Paths(files)) &&
      (forall i :: 0 <= i < |files| ==>
        ClassifiedIn(r, files[i].path, FileOutcome(files, targetDirectory, sorting, fs, i), action))
  {
    var ps := Paths(files);
    var os := Outcomes(files, targetDirectory, sorting, fs);
    EnteredShape(ps, os, action, |files|);
    EnteredClassifies(ps, os, action, |files|);
    assert ps[..|files|] == ps;
  }
}
