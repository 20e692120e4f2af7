// The focus shared by the two file lists (src/components/file-list/
// fileListFocusContext.tsx): which list has the keyboard focus, which row
// of it is selected, and which file that row shows. The screen stores a
// {path, tag} record in `file`; nothing here looks inside it, so the model
// keeps its path.

module FocusContext {
  import opened Wrappers

  /** The three state cells as one value. */
  datatype FocusState = FocusState(fileListId: Option<string>, selectedIndex: Option<int>, file: Option<string>)

  /** The provider's state: one (list, index) pair for all lists, and the file cell. */
  class FileListFocus {
    var fileListId: Option<string>
    var selectedIndex: Option<int>
    var file: Option<string>

    function State(): FocusState
      reads this
    {
      FocusState(fileListId, selectedIndex, file)
    }

    /** Nothing is focused at first. */
    constructor()
      ensures State() == FocusState(None, None, None)
    {
      fileListId, selectedIndex, file := None, None, None;
    }

    /** `setFocus` sets the list and the index together and leaves the file alone. */
    method SetFocus(id: Option<string>, index: Option<int>)
      modifies this
      ensures State() == FocusState(id, index, old(file))
    {
      fileListId := id;
      selectedIndex := index;
    }

    /** `setFile` changes the file cell only. */
    method SetFile(f: Option<string>)
      modifies this
      ensures State() == FocusState(old(fileListId), old(selectedIndex), f)
    {
      file := f;
    }
  }

  const NullContextMessage := "FileListFocusContext is null"

  /** `useFileListFocusContext`: outside a provider (no context) it fails at once. */
  function UseFocusContext(context: Option<FileListFocus>): (r: Result<FileListFocus, string>)
    ensures r.Failure? <==> context.None?
    ensures r.Failure? ==> r.error == NullContextMessage
    ensures r.Success? ==> r.value == context.value
  {
    if context.None? then Failure(NullContextMessage) else Success(context.value)
  }
}
