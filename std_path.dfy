// The two operations of Rust's `std::path` that the file-sorting and
// file-saving code rely on, for Unix-style '/'-separated path strings.

module StdPath {
  import opened Wrappers
  import opened Strings

  /** `s` without its trailing '/' characters. */
  function StripTrailingSlashes(s: string): (r: string)
    ensures |r| <= |s| && r == s[..|r|]
    ensures r == [] || r[|r| - 1] != '/'
    ensures forall k :: |r| <= k < |s| ==> s[k] == '/'
    decreases |s|
  {
    if s != [] && s[|s| - 1] == '/' then StripTrailingSlashes(s[..|s| - 1]) else s
  }

  /**
   * `Path::file_name`: the last normal component of the path. Trailing
   * separators and trailing "." components are skipped; a path that ends in
   * ".." or has no normal component has no file name.
   */
  function FileName(p: string): (r: Option<string>)
    ensures r.Some? ==> r.value != "" && r.value != "." && r.value != ".." && '/' !in r.value
    decreases |p|
  {
    var q := StripTrailingSlashes(p);
    if q == [] then None
    else
      var name := q[LastIndexOf(q, '/') + 1..];
      if name == "." then
        FileName(q[..|q| - 1])
      else if name == ".." then None
      else
        Some(name)
  }

  /**
   * `Path::join` / `PathBuf::push`: an absolute `segment` replaces the base;
   * otherwise it is appended, with a '/' in between unless the base is empty
   * or already ends in one.
   */
  function Join(base: string, segment: string): string
  {
    if segment != [] && segment[0] == '/' then segment
    else if base == [] || base[|base| - 1] == '/' then base + segment
    else base + "/" + segment
  }

  /**
   * What joining keeps: a relative segment ends the result and the base
   * starts it, with always a '/' in front of the segment when the base is
   * not empty, which is added exactly when the base does not end in one.
   */
  lemma JoinShape(base: string, segment: string)
    ensures segment != [] && segment[0] == '/' ==> Join(base, segment) == segment
    ensures !(segment != [] && segment[0] == '/') ==>
      var r := Join(base, segment);
      |base| + |segment| <= |r| <= |base| + |segment| + 1 &&
      r[..|base|] == base && r[|r| - |segment|..] == segment &&
      (base != [] ==> r[|r| - |segment| - 1] == '/') &&
      (|r| == |base| + |segment| + 1 <==> base != [] && base[|base| - 1] != '/')
  {
  }

  /** Joining a name onto a directory and asking for the file name gives the name back. */
  lemma JoinFileName(dir: string, name: string)
    requires name != "" && name != "." && name != ".." && '/' !in name
    ensures FileName(Join(dir, name)) == Some(name)
  {
    var j := Join(dir, name);
    JoinShape(dir, name);
    assert name[0] != '/';
    assert j[|j| - |name|..] == name;
    assert StripTrailingSlashes(j) == j;
    if dir != [] {
      assert j[|j| - |name| - 1] == '/';
      LastIndexOfAt(j, '/', |j| - |name| - 1);
    } else {
      assert j == name;
      LastIndexOfAt(j, '/', -1);
    }
  }
}
