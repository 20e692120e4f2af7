// The report a save hands back to the interface (`SaveResult` on the Rust
// side, `SaveImageResult` on the TypeScript side).

module SaveModel {
  /**
   * Paths saved, in the order they were saved; an error message per failed
   * path; errors that concern the whole save; and, after a move, where each
   * moved path went.
   */
  datatype SaveResult = SaveResult(
    successfullySavedFiles: seq<string>,
    errors: map<string, string>,
    globalErrors: seq<string>,
    renamedFiles: map<string, string>)

  /** The result `save_files` starts from. */
  const EmptyResult: SaveResult := SaveResult([], map[], [], map[])
}
