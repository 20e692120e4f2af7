// One file list and its keyboard handling (src/components/file-list/
// FileList.tsx). Every list works on the focus shared through the context,
// so the lists are told apart only by their ids. The screen passes
// {path, tag} records as the files; only their indices and the list lengths
// decide anything here, so a file is modelled by its path.

module FileLists {
  import opened Wrappers
  import opened FocusContext

  /** `files[index]`, where a read outside the list yields no file. */
  function FileAt(files: seq<string>, index: int): (r: Option<string>)
    ensures r.Some? <==> 0 <= index < |files|
    ensures r.Some? ==> r.value == files[index]
  {
    if 0 <= index < |files| then Some(files[index]) else None
  }

  /** The focus after `selectRow(index)` in list `id`: cleared for no index, else this list at `index`. */
  function SelectRowState(id: string, files: seq<string>, index: Option<int>): (r: FocusState)
    ensures index.None? ==> r == FocusState(None, None, None)
    ensures index.Some? ==> r == FocusState(Some(id), index, FileAt(files, index.value))
  {
    if index.None? then FocusState(None, None, None) else FocusState(Some(id), index, FileAt(files, index.value))
  }

  predicate Active(s: FocusState, id: string)
  {
    s.fileListId == Some(id)
  }

  /**
   * The re-clamping effect: when this list holds the focus with an index,
   * an empty list clears the focus and any other index is moved into range
   * and re-selected.
   */
  function Reclamped(s: FocusState, id: string, files: seq<string>): FocusState
  {
    if !Active(s, id) || s.selectedIndex.None? then s
    else if |files| == 0 then SelectRowState(id, files, None)
    else if s.selectedIndex.value > |files| - 1 then SelectRowState(id, files, Some(|files| - 1))
    else if s.selectedIndex.value < 0 then SelectRowState(id, files, Some(0))
    else SelectRowState(id, files, s.selectedIndex)
  }

  /** The focus needs no correction: if this list holds it with an index, the index is in range and its file is shown. */
  predicate Settled(s: FocusState, id: string, files: seq<string>)
  {
    Active(s, id) && s.selectedIndex.Some? ==>
      0 <= s.selectedIndex.value < |files| && s.file == Some(files[s.selectedIndex.value])
  }

  /**
   * What `selectRow` leaves behind: no index makes no list active; an index
   * makes this list, and no other, active, and the focus is settled exactly
   * when the index is a row of the list.
   */
  lemma SelectRowEffect(id: string, files: seq<string>, index: Option<int>)
    ensures var s := SelectRowState(id, files, index);
      (index.None? ==> forall other :: !Active(s, other)) &&
      (index.Some? ==> Active(s, id) && forall other | other != id :: !Active(s, other)) &&
      (index.Some? ==> (Settled(s, id, files) <==> 0 <= index.value < |files|))
  {
  }

  function Clamp(k: int, lo: int, hi: int): int
  {
    if k < lo then lo else if k > hi then hi else k
  }

  /**
   * What re-clamping does, case by case: nothing unless this list holds the
   * focus with an index; on an empty list the focus is cleared; otherwise
   * the index is clamped to the list and its file shown.
   */
  lemma ReclampCases(s: FocusState, id: string, files: seq<string>)
    ensures !Active(s, id) || s.selectedIndex.None? ==> Reclamped(s, id, files) == s
    ensures Active(s, id) && s.selectedIndex.Some? && files == [] ==>
      Reclamped(s, id, files) == FocusState(None, None, None)
    ensures Active(s, id) && s.selectedIndex.Some? && files != [] ==>
      var k := Clamp(s.selectedIndex.value, 0, |files| - 1);
      Reclamped(s, id, files) == FocusState(Some(id), Some(k), Some(files[k]))
  {
  }

  /** After re-clamping the focus is settled. */
  lemma ReclampSettles(s: FocusState, id: string, files: seq<string>)
    ensures Settled(Reclamped(s, id, files), id, files)
  {
  }

  /** A settled focus is left exactly as it is. */
  lemma ReclampKeepsSettled(s: FocusState, id: string, files: seq<string>)
    requires Settled(s, id, files)
    ensures Reclamped(s, id, files) == s
  {
  }

  /** Re-clamping twice is re-clamping once. */
  lemma ReclampIdempotent(s: FocusState, id: string, files: seq<string>)
    ensures Reclamped(Reclamped(s, id, files), id, files) == Reclamped(s, id, files)
  {
    ReclampSettles(s, id, files);
    ReclampKeepsSettled(Reclamped(s, id, files), id, files);
  }

  /** `Math.min` and `Math.max`. */
  function Min(a: int, b: int): int { if a < b then a else b }

  function Max(a: int, b: int): int { if a > b then a else b }

  /** ArrowDown: the next row, stopping at the last; without an index the focus is cleared. */
  function ArrowDownState(s: FocusState, id: string, files: seq<string>): FocusState
  {
    if !Active(s, id) then s
    else SelectRowState(id, files,
      if s.selectedIndex.Some? then Some(Min(s.selectedIndex.value + 1, |files| - 1))
      else None)
  }

  /** ArrowUp: the previous row, stopping at the first; without an index the focus is cleared. */
  function ArrowUpState(s: FocusState, id: string, files: seq<string>): FocusState
  {
    if !Active(s, id) then s
    else SelectRowState(id, files,
      if s.selectedIndex.Some? then Some(Max(s.selectedIndex.value - 1, 0))
      else None)
  }

  /**
   * On a settled focus in a non-empty list, the arrows move one row within
   * the list and keep the focus settled; another list's focus is ignored.
   */
  lemma ArrowsStayInRange(s: FocusState, id: string, files: seq<string>)
    requires Settled(s, id, files) && files != []
    ensures Settled(ArrowDownState(s, id, files), id, files)
    ensures Settled(ArrowUpState(s, id, files), id, files)
    ensures Active(s, id) && s.selectedIndex.Some? ==>
      ArrowDownState(s, id, files).selectedIndex == Some(Clamp(s.selectedIndex.value + 1, 0, |files| - 1)) &&
      ArrowUpState(s, id, files).selectedIndex == Some(Clamp(s.selectedIndex.value - 1, 0, |files| - 1))
    ensures !Active(s, id) ==> ArrowDownState(s, id, files) == s && ArrowUpState(s, id, files) == s
  {
  }

  /**
   * ArrowDown in a list that has just become empty selects index -1 with
   * no file, which the next re-clamp turns into no focus at all.
   */
  lemma ArrowDownOnEmptyList(s: FocusState, id: string)
    requires Active(s, id) && s.selectedIndex.Some? && s.selectedIndex.value >= 0
    ensures ArrowDownState(s, id, []) == FocusState(Some(id), Some(-1), None)
    ensures Reclamped(ArrowDownState(s, id, []), id, []) == FocusState(None, None, None)
  {
  }

  /** One list of the screen, with its id and the shared focus. */
  class FileList {
    const id: string
    const focus: FileListFocus

    constructor(id: string, focus: FileListFocus)
      ensures this.id == id && this.focus == focus
    {
      this.id := id;
      this.focus := focus;
    }

    predicate IsActive()
      reads focus
    {
      Active(focus.State(), id)
    }

    /** `selectRow`: drives the shared focus through `setFocus` and `setFile`. */
    method SelectRow(files: seq<string>, index: Option<int>)
      modifies focus
      ensures focus.State() == SelectRowState(id, files, index)
    {
      if index.None? {
        focus.SetFocus(None, None);
        focus.SetFile(None);
      } else {
        focus.SetFocus(Some(id), index);
        focus.SetFile(FileAt(files, index.value));
      }
    }

    /** The effect that runs after every change of the index or of the files. */
    method Reclamp(files: seq<string>)
      modifies focus
      ensures focus.State() == Reclamped(old(focus.State()), id, files)
    {
      if !IsActive() || focus.selectedIndex.None? {
        return;
      } else if |files| == 0 {
        SelectRow(files, None);
      } else if focus.selectedIndex.value > |files| - 1 {
        SelectRow(files, Some(|files| - 1));
      } else if focus.selectedIndex.value < 0 {
        SelectRow(files, Some(0));
      } else {
        SelectRow(files, focus.selectedIndex);
      }
    }

    method ArrowDown(files: seq<string>)
      modifies focus
      ensures focus.State() == ArrowDownState(old(focus.State()), id, files)
    {
      if IsActive() {
        var next := if focus.selectedIndex.Some? then Some(Min(focus.selectedIndex.value + 1, |files| - 1)) else None;
        SelectRow(files, next);
      }
    }

    method ArrowUp(files: seq<string>)
      modifies focus
      ensures focus.State() == ArrowUpState(old(focus.State()), id, files)
    {
      if IsActive() {
        var next := if focus.selectedIndex.Some? then Some(Max(focus.selectedIndex.value - 1, 0)) else None;
        SelectRow(files, next);
      }
    }

    /**
     * ArrowLeft and ArrowRight: when this list is active and the keymap has
     * a handler for the key, that handler is called with the selected index
     * (`Some(argument)`); the list itself moves no focus.
     */
    method ArrowSide(hasHandler: bool) returns (call: Option<Option<int>>)
      ensures call.Some? <==> IsActive() && hasHandler
      ensures call.Some? ==> call.value == focus.selectedIndex
      ensures focus.State() == old(focus.State())
    {
      if IsActive() && hasHandler {
        call := Some(focus.selectedIndex);
      } else {
        call := None;
      }
    }

    /** Whether row `i` is drawn highlighted. */
    predicate Selected(i: int)
      reads focus
    {
      IsActive() && focus.selectedIndex == Some(i)
    }
  }

  /** Within a list at most one row is highlighted, and two lists on one focus never both highlight. */
  lemma AtMostOneHighlight(l1: FileList, l2: FileList, i: int, j: int)
    requires l1.focus == l2.focus
    requires l1.Selected(i) && l2.Selected(j)
    ensures l1.id == l2.id && i == j
  {
  }

  /**
   * With one shared pair, selecting a row in one list takes the focus away
   * from every other list on the same provider.
   */
  method SelectingMovesFocus(l1: FileList, l2: FileList, files: seq<string>, index: int)
    requires l1.focus == l2.focus && l1.id != l2.id
    modifies l1.focus
    ensures l1.IsActive() && l1.focus.selectedIndex == Some(index)
    ensures !l2.IsActive() && forall j :: !l2.Selected(j)
  {
    l1.SelectRow(files, Some(index));
  }
}
