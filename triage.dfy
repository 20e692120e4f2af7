// The triage state of the organizer screen (src/routes/main-screen/
// ImageOrganizer.tsx): the unreviewed and the accepted list of files, the
// tags selected for filtering, and the views computed from them.

module Triage {
  import opened Wrappers
  import opened Seqs
  import opened Strings
  import PathNames

  /** A file on one of the two lists, with the tag it was given, if any. */
  datatype FileRecord = FileRecord(path: string, tag: Option<string>)

  /** The filter value that stands for "files without a tag". */
  const UntaggedFilter := "__UNTAGGED"

  datatype ListKind = UnreviewedList | AcceptedList

  function Paths(files: seq<FileRecord>): (r: seq<string>)
    ensures |r| == |files| && forall i :: 0 <= i < |files| ==> r[i] == files[i].path
  {
    seq(|files|, i requires 0 <= i < |files| => files[i].path)
  }

  lemma PathsAppend(a: seq<FileRecord>, b: seq<FileRecord>)
    ensures Paths(a + b) == Paths(a) + Paths(b)
  {
  }

  lemma PathsRemoveAt(s: seq<FileRecord>, i: nat)
    requires i < |s|
    ensures Paths(RemoveAt(s, i)) == RemoveAt(Paths(s), i)
  {
  }

  // ---- import ----

  /** A picked path is taken when it has an extension and is on neither list. */
  predicate ImportAdmits(unreviewed: seq<FileRecord>, accepted: seq<FileRecord>, path: string)
  {
    PathNames.GetFileExtension(path).Some? && path !in Paths(unreviewed) && path !in Paths(accepted)
  }

  /** The picked paths the import takes, in the order they were picked. */
  function Admitted(unreviewed: seq<FileRecord>, accepted: seq<FileRecord>, picked: seq<string>): seq<string>
  {
    Filter(picked, p => ImportAdmits(unreviewed, accepted, p))
  }

  /** The records the import appends to the unreviewed list: the admitted paths, untagged. */
  function Imported(unreviewed: seq<FileRecord>, accepted: seq<FileRecord>, picked: seq<string>): (r: seq<FileRecord>)
    ensures Paths(r) == Admitted(unreviewed, accepted, picked)
    ensures forall i :: 0 <= i < |r| ==> r[i].tag.None?
  {
    var admitted := Admitted(unreviewed, accepted, picked);
    seq(|admitted|, i requires 0 <= i < |admitted| => FileRecord(admitted[i], None))
  }

  /**
   * The import takes, in picking order, exactly the picked paths that have
   * an extension and are on neither list.
   */
  lemma ImportTakesAdmitted(unreviewed: seq<FileRecord>, accepted: seq<FileRecord>, picked: seq<string>)
    ensures var taken := Paths(Imported(unreviewed, accepted, picked));
      IsSubsequence(taken, picked) &&
      (forall p | p in taken :: PathNames.GetFileExtension(p).Some? && p !in Paths(unreviewed) && p !in Paths(accepted)) &&
      (forall p | p in picked ::
        PathNames.GetFileExtension(p).Some? && p !in Paths(unreviewed) && p !in Paths(accepted) ==> p in taken)
  {
  }

  /** Paths repeated within one batch are not merged: when every picked path is admissible, all are taken. */
  lemma {:induction false} ImportKeepsBatchDuplicates(unreviewed: seq<FileRecord>, accepted: seq<FileRecord>, picked: seq<string>)
    requires forall i :: 0 <= i < |picked| ==> ImportAdmits(unreviewed, accepted, picked[i])
    ensures Paths(Imported(unreviewed, accepted, picked)) == picked
  {
    FilterKeepsAll(picked, p => ImportAdmits(unreviewed, accepted, p));
  }

  // ---- tagging ----

  /** The list with the record at `index` given `tag` (`newFiles[index].tag = tag`). */
  function Retag(files: seq<FileRecord>, index: nat, tag: Option<string>): (r: seq<FileRecord>)
    requires index < |files|
    ensures |r| == |files| && Paths(r) == Paths(files)
    ensures r[index] == FileRecord(files[index].path, tag)
    ensures forall k :: 0 <= k < |files| && k != index ==> r[k] == files[k]
  {
    files[index := files[index].(tag := tag)]
  }

  // ---- the tag universe ----

  predicate StrictlySorted(s: seq<string>)
  {
    forall i, j :: 0 <= i < j < |s| ==> Less(s[i], s[j])
  }

  /** `s` with `t` added at its place in the order, unless it is there already. */
  function InsertSorted(s: seq<string>, t: string): (r: seq<string>)
    requires StrictlySorted(s)
    ensures StrictlySorted(r)
    ensures forall x :: x in r <==> x in s || x == t
    decreases |s|
  {
    if s == [] then [t]
    else if t == s[0] then s
    else if Less(t, s[0]) then
      assert forall k :: 0 < k < |s| ==> Less(s[0], s[k]);
      forall k | 0 < k < |s| ensures Less(t, s[k]) { LessTransitive(t, s[0], s[k]); }
      [t] + s
    else
      LessTotal(t, s[0]);
      var rest := InsertSorted(s[1..], t);
      assert forall x | x in rest :: Less(s[0], x);
      [s[0]] + rest
  }

  /**
   * `fileTags`: the distinct tags of the accepted files, in ascending
   * order. Files without a tag contribute nothing; an empty tag is kept.
   */
  function FileTags(files: seq<FileRecord>): (r: seq<string>)
    ensures StrictlySorted(r)
    ensures forall t :: t in r <==> exists i :: 0 <= i < |files| && files[i].tag == Some(t)
  {
    if files == [] then []
    else
      var rest := FileTags(files[1..]);
      assert forall t :: (exists i :: 0 <= i < |files| && files[i].tag == Some(t)) <==>
        files[0].tag == Some(t) || exists i :: 0 <= i < |files| - 1 && files[1..][i].tag == Some(t);
      if files[0].tag.Some? then InsertSorted(rest, files[0].tag.value) else rest
  }

  /** Strictly ascending means free of duplicates. */
  lemma SortedHasNoDuplicates(s: seq<string>)
    requires StrictlySorted(s)
    ensures forall i, j :: 0 <= i < j < |s| ==> s[i] != s[j]
  {
    forall i, j | 0 <= i < j < |s|
      ensures s[i] != s[j]
    {
      LessIrreflexive(s[i]);
    }
  }

  // ---- the selected tags ----

  /** The selection effect: selected tags that are no longer in the tag universe are dropped. */
  function Prune(selected: seq<string>, tags: seq<string>): (r: seq<string>)
    ensures IsSubsequence(r, selected)
    ensures forall t | t in r :: t in tags
    ensures forall t | t in selected && t in tags :: t in r
  {
    Filter(selected, t => t in tags)
  }

  /**
   * Recomputing the tag universe drops the untagged filter from the
   * selection, unless some accepted file carries "__UNTAGGED" as its tag.
   */
  lemma PruneDropsUntaggedFilter(selected: seq<string>, accepted: seq<FileRecord>)
    requires forall i :: 0 <= i < |accepted| ==> accepted[i].tag != Some(UntaggedFilter)
    ensures UntaggedFilter !in Prune(selected, FileTags(accepted))
  {
  }

  // ---- the filtered accepted view ----

  /**
   * Whether a file passes an active filter: its tag is truthy (defined and
   * not empty) and selected, or it has no tag and the untagged filter is
   * selected.
   */
  predicate Shown(selected: seq<string>, f: FileRecord)
  {
    (f.tag.Some? && f.tag.value != "" && f.tag.value in selected) ||
    (UntaggedFilter in selected && f.tag.None?)
  }

  /** `filteredAcceptedFiles`: everything when no tag is selected, else the files that pass. */
  function FilteredView(accepted: seq<FileRecord>, selected: seq<string>): seq<FileRecord>
  {
    if selected == [] then accepted else Filter(accepted, f => Shown(selected, f))
  }

  /** With a selection, the view keeps the order of the accepted files and holds exactly those that pass. */
  lemma FilteredViewMembers(accepted: seq<FileRecord>, selected: seq<string>)
    ensures IsSubsequence(FilteredView(accepted, selected), accepted)
    ensures selected == [] ==> FilteredView(accepted, selected) == accepted
    ensures selected != [] ==> forall f ::
      f in FilteredView(accepted, selected) <==> f in accepted && Shown(selected, f)
  {
    if selected == [] {
      IsSubsequenceReflexive(accepted);
    }
  }

  /** A file tagged with the empty string never passes an active filter, even when "" is selected. */
  lemma EmptyTagNeverShown(accepted: seq<FileRecord>, selected: seq<string>, f: FileRecord)
    requires selected != [] && f.tag == Some("")
    ensures f !in FilteredView(accepted, selected)
  {
  }

  /** With an active filter, an untagged file is shown exactly when the untagged filter is selected. */
  lemma UntaggedShownIffSelected(accepted: seq<FileRecord>, selected: seq<string>, f: FileRecord)
    requires selected != [] && f in accepted && f.tag.None?
    ensures f in FilteredView(accepted, selected) <==> UntaggedFilter in selected
  {
  }

  /**
   * `filteredIndexToUnfiltered`: the position in the accepted list of the
   * first file with the path of the view's `index`-th file.
   */
  function FilteredIndexToUnfiltered(accepted: seq<FileRecord>, selected: seq<string>, index: Option<int>): (r: Option<int>)
    requires index.Some? ==> 0 <= index.value < |FilteredView(accepted, selected)|
    ensures r.Some? ==> index.Some? && 0 <= r.value < |accepted|
    ensures r.Some? ==> accepted[r.value].path == FilteredView(accepted, selected)[index.value].path
    ensures r.Some? ==> forall k :: 0 <= k < r.value ==> accepted[k].path != accepted[r.value].path
  {
    if index.None? then None
    else
      var path := FilteredView(accepted, selected)[index.value].path;
      var i := FindIndex(accepted, (f: FileRecord) => f.path == path);
      if i == -1 then None else Some(i)
  }

  /** Dropping records keeps their paths pairwise different. */
  lemma {:induction false} SubsequenceKeepsUniquePaths(a: seq<FileRecord>, b: seq<FileRecord>)
    requires IsSubsequence(a, b)
    requires forall i, j :: 0 <= i < j < |b| ==> b[i].path != b[j].path
    ensures forall i, j :: 0 <= i < j < |a| ==> a[i].path != a[j].path
    decreases |b|
  {
    if a != [] {
      var rest := b[1..];
      assert forall i :: 0 <= i < |rest| ==> rest[i] == b[i + 1];
      if a[0] == b[0] && IsSubsequence(a[1..], rest) {
        SubsequenceKeepsUniquePaths(a[1..], rest);
        forall m | 1 <= m < |a|
          ensures a[0].path != a[m].path
        {
          assert a[m] == a[1..][m - 1];
          SubsequenceMembers(a[1..], rest, a[m]);
          var t :| 0 <= t < |rest| && rest[t] == a[m];
        }
        forall i, j | 0 <= i < j < |a|
          ensures a[i].path != a[j].path
        {
          if i > 0 {
            assert a[i] == a[1..][i - 1] && a[j] == a[1..][j - 1];
          }
        }
      } else {
        SubsequenceKeepsUniquePaths(a, rest);
      }
    }
  }

  /** The translation fails only for a missing index: every file of the view is on the accepted list. */
  lemma TranslationFindsFile(accepted: seq<FileRecord>, selected: seq<string>, index: int)
    requires 0 <= index < |FilteredView(accepted, selected)|
    ensures FilteredIndexToUnfiltered(accepted, selected, Some(index)).Some?
  {
    var view := FilteredView(accepted, selected);
    FilteredViewMembers(accepted, selected);
    assert view[index] in view;
    SubsequenceMembers(view, accepted, view[index]);
    var j :| 0 <= j < |accepted| && accepted[j] == view[index];
    assert ((f: FileRecord) => f.path == view[index].path)(accepted[j]);
  }

  /** When paths are unique, the translation lands on the very file the view shows. */
  lemma TranslationIsExact(accepted: seq<FileRecord>, selected: seq<string>, index: int)
    requires 0 <= index < |FilteredView(accepted, selected)|
    requires forall i, j :: 0 <= i < j < |accepted| ==> accepted[i].path != accepted[j].path
    ensures var r := FilteredIndexToUnfiltered(accepted, selected, Some(index));
      r.Some? && accepted[r.value] == FilteredView(accepted, selected)[index]
  {
    TranslationFindsFile(accepted, selected, index);
    var view := FilteredView(accepted, selected);
    FilteredViewMembers(accepted, selected);
    assert view[index] in view;
    SubsequenceMembers(view, accepted, view[index]);
    var j :| 0 <= j < |accepted| && accepted[j] == view[index];
    var r := FilteredIndexToUnfiltered(accepted, selected, Some(index));
    assert accepted[r.value].path == accepted[j].path;
  }

  // ---- the store ----

  /** The organizer's state cells and the handlers that replace them. */
  class TriageStore {
    var unreviewed: seq<FileRecord>
    var accepted: seq<FileRecord>
    var selectedTags: seq<string>

    /** Every file is on at most one list, at most once. */
    ghost predicate Valid()
      reads this
    {
      NoDuplicates(Paths(unreviewed) + Paths(accepted))
    }

    /** All files on both lists, counted with repetition. */
    function Records(): multiset<FileRecord>
      reads this
    {
      multiset(unreviewed) + multiset(accepted)
    }

    constructor()
      ensures unreviewed == [] && accepted == [] && selectedTags == []
      ensures Valid()
    {
      unreviewed, accepted, selectedTags := [], [], [];
    }

    /**
     * `importImages` after the file dialog returned `picked`: the admitted
     * paths are appended to the unreviewed list as untagged records.
     */
    method Import(picked: seq<string>)
      modifies this
      ensures unreviewed == old(unreviewed) + Imported(old(unreviewed), old(accepted), picked)
      ensures accepted == old(accepted) && selectedTags == old(selectedTags)
      ensures old(Valid()) && NoDuplicates(picked) ==> Valid()
    {
      ghost var u0, a0 := unreviewed, accepted;
      var taken := Imported(unreviewed, accepted, picked);
      unreviewed := unreviewed + taken;
      if NoDuplicates(Paths(u0) + Paths(a0)) && NoDuplicates(picked) {
        ImportKeepsUnique(u0, a0, picked);
      }
    }

    /** `acceptFile`: the record at `index` leaves the unreviewed list and is appended to the accepted one. */
    method AcceptFile(index: Option<int>)
      requires index.Some? ==> 0 <= index.value < |unreviewed|
      modifies this
      ensures index.None? ==> unreviewed == old(unreviewed) && accepted == old(accepted)
      ensures index.Some? ==> unreviewed == RemoveAt(old(unreviewed), index.value)
      ensures index.Some? ==> accepted == old(accepted) + [old(unreviewed)[index.value]]
      ensures selectedTags == old(selectedTags)
      ensures Records() == old(Records())
      ensures old(Valid()) ==> Valid()
    {
      if index.None? {
        return;
      }
      ghost var u0, a0 := unreviewed, accepted;
      var file := unreviewed[index.value];
      unreviewed := SpliceOut(unreviewed, index.value);
      SpliceOutInRange(u0, index.value);
      accepted := accepted + [file];
      MoveKeepsUnique(u0, a0, index.value);
    }

    /**
     * `rejectFile`: the removal idiom on the unreviewed list; for an index
     * in range that removes exactly that record, past the end nothing.
     */
    method RejectFile(index: Option<int>)
      modifies this
      ensures index.None? ==> unreviewed == old(unreviewed)
      ensures index.Some? ==> unreviewed == SpliceOut(old(unreviewed), index.value)
      ensures accepted == old(accepted) && selectedTags == old(selectedTags)
      ensures old(Valid()) && (index.None? || index.value >= 0) ==> Valid()
    {
      if index.None? {
        return;
      }
      ghost var u0 := unreviewed;
      unreviewed := SpliceOut(unreviewed, index.value);
      if index.value >= 0 && NoDuplicates(Paths(u0) + Paths(accepted)) {
        if index.value < |u0| {
          SpliceOutInRange(u0, index.value);
          RemoveKeepsUnique(u0, accepted, index.value);
        } else {
          SpliceOutPastEnd(u0, index.value);
        }
      }
    }

    /** `unacceptFile`: the record at `index` leaves the accepted list and is appended to the unreviewed one. */
    method UnacceptFile(index: Option<int>)
      requires index.Some? ==> 0 <= index.value < |accepted|
      modifies this
      ensures index.None? ==> unreviewed == old(unreviewed) && accepted == old(accepted)
      ensures index.Some? ==> accepted == RemoveAt(old(accepted), index.value)
      ensures index.Some? ==> unreviewed == old(unreviewed) + [old(accepted)[index.value]]
      ensures selectedTags == old(selectedTags)
      ensures Records() == old(Records())
      ensures old(Valid()) ==> Valid()
    {
      if index.None? {
        return;
      }
      ghost var u0, a0 := unreviewed, accepted;
      var file := accepted[index.value];
      accepted := SpliceOut(accepted, index.value);
      SpliceOutInRange(a0, index.value);
      unreviewed := unreviewed + [file];
      MoveBackKeepsUnique(u0, a0, index.value);
    }

    /** `tagFile`: the record at `index` of the chosen list gets `tag`; nothing else changes. */
    method TagFile(mode: ListKind, index: Option<int>, tag: Option<string>)
      requires index.Some? ==> 0 <= index.value < |if mode == UnreviewedList then unreviewed else accepted|
      modifies this
      ensures index.None? ==> unreviewed == old(unreviewed) && accepted == old(accepted)
      ensures index.Some? && mode == UnreviewedList ==>
        unreviewed == Retag(old(unreviewed), index.value, tag) && accepted == old(accepted)
      ensures index.Some? && mode == AcceptedList ==>
        accepted == Retag(old(accepted), index.value, tag) && unreviewed == old(unreviewed)
      ensures selectedTags == old(selectedTags)
      ensures old(Valid()) ==> Valid()
    {
      if index.None? {
        return;
      }
      if mode == UnreviewedList {
        unreviewed := Retag(unreviewed, index.value, tag);
      } else {
        accepted := Retag(accepted, index.value, tag);
      }
    }

    /** `acceptAllFiles`: the unreviewed records are appended to the accepted ones. */
    method AcceptAll()
      modifies this
      ensures accepted == old(accepted) + old(unreviewed) && unreviewed == []
      ensures selectedTags == old(selectedTags)
      ensures Records() == old(Records())
      ensures old(Valid()) ==> Valid()
    {
      ghost var u0, a0 := unreviewed, accepted;
      accepted := accepted + unreviewed;
      unreviewed := [];
      ConcatKeepsUnique(u0, a0);
    }

    /** `unacceptAllFiles`: the accepted records are appended to the unreviewed ones. */
    method UnacceptAll()
      modifies this
      ensures unreviewed == old(unreviewed) + old(accepted) && accepted == []
      ensures selectedTags == old(selectedTags)
      ensures Records() == old(Records())
      ensures old(Valid()) ==> Valid()
    {
      ghost var u0, a0 := unreviewed, accepted;
      unreviewed := unreviewed + accepted;
      accepted := [];
      ConcatKeepsUnique(u0, a0);
    }

    /** `clearUnreviewedImages`. */
    method ClearUnreviewed()
      modifies this
      ensures unreviewed == [] && accepted == old(accepted) && selectedTags == old(selectedTags)
      ensures old(Valid()) ==> Valid()
    {
      ghost var u0 := unreviewed;
      unreviewed := [];
      assert Paths(unreviewed) + Paths(accepted) == Paths(accepted);
      if NoDuplicates(Paths(u0) + Paths(accepted)) {
        NoDuplicatesOfSmaller(Paths(accepted), Paths(u0) + Paths(accepted));
      }
    }

    /** The tag filter's `setValue`. */
    method SetSelectedTags(tags: seq<string>)
      modifies this
      ensures selectedTags == tags && unreviewed == old(unreviewed) && accepted == old(accepted)
    {
      selectedTags := tags;
    }

    /** The selection effect, run whenever the tag universe has been recomputed. */
    method PruneSelectedTags()
      modifies this
      ensures selectedTags == Prune(old(selectedTags), FileTags(accepted))
      ensures unreviewed == old(unreviewed) && accepted == old(accepted)
    {
      selectedTags := Prune(selectedTags, FileTags(accepted));
    }

    function FilteredAcceptedFiles(): seq<FileRecord>
      reads this
    {
      FilteredView(accepted, selectedTags)
    }
  }

  /** On a valid store the accepted records have pairwise different paths. */
  lemma ValidAcceptedUnique(store: TriageStore)
    requires store.Valid()
    ensures forall i, j :: 0 <= i < j < |store.accepted| ==> store.accepted[i].path != store.accepted[j].path
  {
    NoDuplicatesDistinct(Paths(store.unreviewed), Paths(store.accepted));
    var ps := Paths(store.accepted);
    assert forall i :: 0 <= i < |store.accepted| ==> store.accepted[i].path == ps[i];
  }

  /** On a valid store, every row of the filtered view translates to the very record it shows. */
  lemma StoreTranslationIsExact(store: TriageStore, index: int)
    requires store.Valid() && 0 <= index < |store.FilteredAcceptedFiles()|
    ensures var r := FilteredIndexToUnfiltered(store.accepted, store.selectedTags, Some(index));
      r.Some? && store.accepted[r.value] == store.FilteredAcceptedFiles()[index]
  {
    ValidAcceptedUnique(store);
    TranslationIsExact(store.accepted, store.selectedTags, index);
  }

  /**
   * Accepting the record at `index` and then taking back the last accepted
   * record returns that record to the end of the unreviewed list and leaves
   * the accepted list as it was.
   */
  method AcceptThenUnaccept(store: TriageStore, index: int)
    requires 0 <= index < |store.unreviewed|
    modifies store
    ensures store.unreviewed == RemoveAt(old(store.unreviewed), index) + [old(store.unreviewed)[index]]
    ensures store.accepted == old(store.accepted)
  {
    store.AcceptFile(Some(index));
    store.UnacceptFile(Some(|store.accepted| - 1));
  }

  // ---- uniqueness of paths across both lists ----

  lemma ConcatKeepsUnique(a: seq<FileRecord>, b: seq<FileRecord>)
    ensures NoDuplicates(Paths(a) + Paths(b)) ==>
      NoDuplicates(Paths([]) + Paths(b + a)) && NoDuplicates(Paths(a + b) + Paths([]))
  {
    PathsAppend(a, b);
    PathsAppend(b, a);
    assert Paths(a + b) + Paths([]) == Paths(a) + Paths(b);
    assert Paths([]) + Paths(b + a) == Paths(b) + Paths(a);
    assert multiset(Paths(b) + Paths(a)) == multiset(Paths(a) + Paths(b));
  }

  lemma MoveKeepsUnique(u: seq<FileRecord>, a: seq<FileRecord>, i: nat)
    requires i < |u|
    ensures multiset(Paths(RemoveAt(u, i)) + Paths(a + [u[i]])) == multiset(Paths(u) + Paths(a))
    ensures NoDuplicates(Paths(u) + Paths(a)) ==> NoDuplicates(Paths(RemoveAt(u, i)) + Paths(a + [u[i]]))
  {
    PathsRemoveAt(u, i);
    PathsAppend(a, [u[i]]);
    assert multiset(Paths(RemoveAt(u, i))) + multiset{u[i].path} == multiset(Paths(u));
  }

  lemma MoveBackKeepsUnique(u: seq<FileRecord>, a: seq<FileRecord>, i: nat)
    requires i < |a|
    ensures NoDuplicates(Paths(u) + Paths(a)) ==> NoDuplicates(Paths(u + [a[i]]) + Paths(RemoveAt(a, i)))
  {
    PathsRemoveAt(a, i);
    PathsAppend(u, [a[i]]);
    assert multiset(Paths(RemoveAt(a, i))) + multiset{a[i].path} == multiset(Paths(a));
    assert multiset(Paths(u + [a[i]]) + Paths(RemoveAt(a, i))) == multiset(Paths(u) + Paths(a));
  }

  lemma RemoveKeepsUnique(u: seq<FileRecord>, a: seq<FileRecord>, i: nat)
    requires i < |u| && NoDuplicates(Paths(u) + Paths(a))
    ensures NoDuplicates(Paths(RemoveAt(u, i)) + Paths(a))
  {
    PathsRemoveAt(u, i);
    assert multiset(Paths(RemoveAt(u, i))) + multiset{u[i].path} == multiset(Paths(u));
    NoDuplicatesOfSmaller(Paths(RemoveAt(u, i)) + Paths(a), Paths(u) + Paths(a));
  }

  lemma ImportKeepsUnique(u: seq<FileRecord>, a: seq<FileRecord>, picked: seq<string>)
    requires NoDuplicates(Paths(u) + Paths(a)) && NoDuplicates(picked)
    ensures NoDuplicates(Paths(u + Imported(u, a, picked)) + Paths(a))
  {
    var taken := Admitted(u, a, picked);
    PathsAppend(u, Imported(u, a, picked));
    FilterSubMultiset(picked, p => ImportAdmits(u, a, p));
    NoDuplicatesOfSmaller(taken, picked);
    var all := Paths(u) + taken + Paths(a);
    assert Paths(u + Imported(u, a, picked)) + Paths(a) == all;
    forall x | x in all
      ensures multiset(all)[x] <= 1
    {
      assert multiset(all)[x] == multiset(Paths(u))[x] + multiset(taken)[x] + multiset(Paths(a))[x];
      if x in taken {
        assert x !in Paths(u) && x !in Paths(a);
      } else {
        assert multiset(Paths(u) + Paths(a))[x] <= 1;
      }
    }
  }
}
