/** The path helpers of the front end: the display name of a file and its extension.
    Both `/` and `\` separate path segments. */
module PathNames {
  import opened Wrappers
  import opened Strings

  predicate IsSeparator(c: char)
  {
    c == '/' || c == '\\'
  }

  /** `path.split(/[\\/]/)`: the segments between separators, empty ones included. */
  function SplitOnSeparators(s: string): (parts: seq<string>)
    ensures |parts| >= 1
    ensures |parts| == 1 <==> forall k :: 0 <= k < |s| ==> !IsSeparator(s[k])
    ensures |parts| == 1 ==> parts[0] == s
    decreases |s|
  {
    if s == [] then [""]
    else if IsSeparator(s[0]) then [""] + SplitOnSeparators(s[1..])
    else
      var rest := SplitOnSeparators(s[1..]);
      [[s[0]] + rest[0]] + rest[1..]
  }

  /** `getBasename`: the last element of the split, which always exists. */
  function GetBasename(path: string): string
  {
    var parts := SplitOnSeparators(path);
    parts[|parts| - 1]
  }

  /** `Math.max(path.lastIndexOf('/'), path.lastIndexOf('\\'))`: the last separator, or -1. */
  function LastSeparatorIndex(path: string): (r: int)
    ensures -1 <= r < |path|
    ensures r >= 0 ==> IsSeparator(path[r])
    ensures forall k :: r < k < |path| ==> !IsSeparator(path[k])
  {
    var slash, backslash := LastIndexOf(path, '/'), LastIndexOf(path, '\\');
    if slash < backslash then backslash else slash
  }

  /**
   * The basename of a non-empty path is the basename of its tail, unless
   * neither its first character nor its tail holds a separator, in which
   * case it is the whole path.
   */
  lemma BasenameStep(path: string)
    requires path != []
    ensures IsSeparator(path[0]) || |SplitOnSeparators(path[1..])| > 1 ==>
      GetBasename(path) == GetBasename(path[1..])
    ensures !IsSeparator(path[0]) && |SplitOnSeparators(path[1..])| == 1 ==>
      GetBasename(path) == path
  {
    var rest := SplitOnSeparators(path[1..]);
    if IsSeparator(path[0]) {
      assert SplitOnSeparators(path) == [""] + rest;
    } else if |rest| == 1 {
      assert path == [path[0]] + path[1..];
    } else {
      assert SplitOnSeparators(path) == [[path[0]] + rest[0]] + rest[1..];
    }
  }

  /** The basename is the text after the last separator: a suffix of the path without
      separators, preceded by a separator whenever it is not the whole path. */
  lemma {:induction false} BasenameIsLastSegment(path: string)
    ensures var b := GetBasename(path);
      && |b| <= |path|
      && path[|path| - |b|..] == b
      && (forall k :: 0 <= k < |b| ==> !IsSeparator(b[k]))
      && (|b| < |path| ==> IsSeparator(path[|path| - |b| - 1]))
    decreases |path|
  {
    if path != [] {
      var tail := path[1..];
      BasenameIsLastSegment(tail);
      BasenameStep(path);
      var b' := GetBasename(tail);
      if IsSeparator(path[0]) || |SplitOnSeparators(tail)| > 1 {
        assert path[|path| - |b'|..] == tail[|tail| - |b'|..];
        if |b'| == |tail| && !IsSeparator(path[0]) {
          assert false;
        }
      }
    }
  }

  /** A path that ends in a separator names no file. */
  lemma BasenameOfTrailingSeparator(path: string)
    requires path != [] && IsSeparator(path[|path| - 1])
    ensures GetBasename(path) == ""
  {
    BasenameIsLastSegment(path);
  }

  /** `getFileExtension`: the text after the last `.` of the last segment, if that is not empty. */
  function GetFileExtension(path: string): (r: Option<string>)
    ensures r.Some? <==>
      && path != []
      && path[|path| - 1] != '.'
      && exists k :: LastSeparatorIndex(path) < k < |path| && path[k] == '.'
    ensures r.Some? ==>
      && r.value != ""
      && |r.value| < |path|
      && path[|path| - |r.value| - 1..] == "." + r.value
      && (forall k :: 0 <= k < |r.value| ==> r.value[k] != '.' && !IsSeparator(r.value[k]))
  {
    var index := LastSeparatorIndex(path);
    var base := path[index + 1..];
    var dot := LastIndexOf(base, '.');
    if dot != -1 then
      var extension := base[dot + 1..];
      assert forall k :: 0 <= k < |extension| ==> extension[k] == base[dot + 1 + k] == path[index + dot + 2 + k];
      if extension != "" then
        assert path[|path| - |extension| - 1..] == base[dot..];
        Some(extension)
      else
        None
    else
      assert forall k :: index < k < |path| ==> path[k] == base[k - index - 1];
      None
  }

  /** The extension is looked for in the last segment only. */
  lemma ExtensionOnlyInLastSegment()
    ensures GetFileExtension("a.b/c") == None
    ensures GetFileExtension("a.b\\c") == None
  {
    LastIndexOfAt("a.b/c", '/', 3);
    LastIndexOfAt("a.b/c", '\\', -1);
    LastIndexOfAt("c", '.', -1);
    LastIndexOfAt("a.b\\c", '/', -1);
    LastIndexOfAt("a.b\\c", '\\', 3);
  }

  /** A hidden-file name is all extension. */
  lemma ExtensionOfHiddenFile()
    ensures GetFileExtension(".bashrc") == Some("bashrc")
  {
    LastIndexOfAt(".bashrc", '/', -1);
    LastIndexOfAt(".bashrc", '\\', -1);
    LastIndexOfAt(".bashrc", '.', 0);
  }

  /** A trailing dot gives no extension, even when an earlier dot exists. */
  lemma ExtensionOfTrailingDot()
    ensures GetFileExtension("x.") == None
    ensures GetFileExtension("a.b.") == None
  {
    LastIndexOfAt("x.", '/', -1);
    LastIndexOfAt("x.", '\\', -1);
    LastIndexOfAt("x.", '.', 1);
    LastIndexOfAt("a.b.", '/', -1);
    LastIndexOfAt("a.b.", '\\', -1);
    LastIndexOfAt("a.b.", '.', 3);
  }

  /** A name without a dot has no extension. */
  lemma ExtensionOfPlainName()
    ensures GetFileExtension("x") == None
  {
    LastIndexOfAt("x", '/', -1);
    LastIndexOfAt("x", '\\', -1);
    LastIndexOfAt("x", '.', -1);
  }
}
