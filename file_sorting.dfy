// Sorting saved files into date-named folders (src-tauri file_sorting.rs):
// the German month names, the directory-name template and the loop that
// turns each file path into its sorted destination.

module FileSorting {
  import opened Wrappers
  import opened Strings
  import StdPath

  /** Years chrono's `%Y` renders as exactly four digits. */
  type Year = y: int | 0 <= y <= 9999

  type Month = m: int | 1 <= m <= 12 witness 1

  /** The part of a creation date-time the folder template can use. */
  datatype Date = Date(year: Year, month: Month)

  /** `get_german_month_name`; `None` is the panic for a number outside 1..12. */
  function GermanMonthName(month: int): (r: Option<string>)
    ensures r.Some? <==> 1 <= month <= 12
    ensures r.Some? ==> r.value != "" && '%' !in r.value
  {
    match month
    case 1 => Some("Januar")
    case 2 => Some("Februar")
    case 3 => Some("März")
    case 4 => Some("April")
    case 5 => Some("Mai")
    case 6 => Some("Juni")
    case 7 => Some("Juli")
    case 8 => Some("August")
    case 9 => Some("September")
    case 10 => Some("Oktober")
    case 11 => Some("November")
    case 12 => Some("Dezember")
    case _ => None
  }

  /** No two months share a name. */
  lemma MonthNamesDistinct(m1: Month, m2: Month)
    requires m1 != m2
    ensures GermanMonthName(m1) != GermanMonthName(m2)
  {
  }

  // ---- what each placeholder is replaced by ----

  /** chrono `%Y`: the year, zero-padded to four digits. */
  function YearText(d: Date): (r: string)
    ensures |r| == 4 && AllDigits(r) && DecimalValue(r) == d.year
  {
    PadDigitsValue(d.year, 4);
    PadDigits(d.year, 4)
  }

  /** chrono `%y`: the year modulo 100, zero-padded to two digits. */
  function ShortYearText(d: Date): (r: string)
    ensures |r| == 2 && AllDigits(r) && DecimalValue(r) == d.year % 100
  {
    PadDigitsValue(d.year % 100, 2);
    PadDigits(d.year % 100, 2)
  }

  /** chrono `%m`: the month number, zero-padded to two digits. */
  function MonthText(d: Date): (r: string)
    ensures |r| == 2 && AllDigits(r) && DecimalValue(r) == d.month
  {
    PadDigitsValue(d.month, 2);
    PadDigits(d.month, 2)
  }

  function MonthNameText(d: Date): (r: string)
    ensures Some(r) == GermanMonthName(d.month)
  {
    GermanMonthName(d.month).value
  }

  lemma DigitsHaveNoPercent(s: string)
    requires AllDigits(s)
    ensures '%' !in s
  {
  }

  /**
   * `interpolate_date_format`: every "%Y", then every "%y", then every "%m",
   * then every "%B" of the template replaced, each pass over the result of
   * the one before.
   */
  function InterpolateDateFormat(date: Date, format: string): string
  {
    var withYear := ReplaceAll(format, "%Y", YearText(date));
    var withShortYear := ReplaceAll(withYear, "%y", ShortYearText(date));
    var withMonth := ReplaceAll(withShortYear, "%m", MonthText(date));
    ReplaceAll(withMonth, "%B", MonthNameText(date))
  }

  // ---- reference definition: one left-to-right scan ----

  predicate IsPlaceholder(c: char)
  {
    c == 'Y' || c == 'y' || c == 'm' || c == 'B'
  }

  function PlaceholderText(date: Date, c: char): (r: string)
    requires IsPlaceholder(c)
    ensures r != "" && '%' !in r
  {
    if c == 'Y' then DigitsHaveNoPercent(YearText(date)); YearText(date)
    else if c == 'y' then DigitsHaveNoPercent(ShortYearText(date)); ShortYearText(date)
    else if c == 'm' then DigitsHaveNoPercent(MonthText(date)); MonthText(date)
    else MonthNameText(date)
  }

  /**
   * The template read once from left to right: a '%' followed by one of
   * Y, y, m, B is replaced by its text; every other character is copied.
   */
  function Expand(date: Date, format: string): (r: string)
    decreases |format|
  {
    if format == [] then ""
    else if |format| >= 2 && format[0] == '%' && IsPlaceholder(format[1]) then
      PlaceholderText(date, format[1]) + Expand(date, format[2..])
    else [format[0]] + Expand(date, format[1..])
  }

  // ---- the four passes agree with the single scan ----

  /** The first character of a replacement pass's result. */
  lemma ReplaceAllHead(s: string, pat: string, rep: string)
    requires pat != "" && rep != "" && s != []
    ensures ReplaceAll(s, pat, rep) != []
    ensures ReplaceAll(s, pat, rep)[0] == if StartsWith(s, pat) then rep[0] else s[0]
  {
    if StartsWith(s, pat) {
      assert s == pat + s[|pat|..];
      ReplaceAllAtFront(s[|pat|..], pat, rep);
    } else {
      ReplaceAllNoMatchAtFront(s, pat, rep);
    }
  }

  /** A two-character placeholder other than `pat` passes through a pass untouched. */
  lemma PassOther(c: char, t: string, pat: string, rep: string)
    requires |pat| == 2 && pat[0] == '%' && pat[1] != c && c != '%'
    ensures ReplaceAll(['%', c] + t, pat, rep) == ['%', c] + ReplaceAll(t, pat, rep)
  {
    var s := ['%', c] + t;
    assert !StartsWith(s, pat) by { assert s[1] == c; }
    ReplaceAllNoMatchAtFront(s, pat, rep);
    assert s[1..] == [c] + t;
    ReplaceAllSkips([c], t, pat, rep);
  }

  /** A lone '%' passes through a pass when what follows cannot complete `pat`. */
  lemma PassPercent(t: string, pat: string, rep: string)
    requires |pat| == 2 && pat[0] == '%'
    requires t == [] || t[0] != pat[1]
    ensures ReplaceAll(['%'] + t, pat, rep) == ['%'] + ReplaceAll(t, pat, rep)
  {
    var s := ['%'] + t;
    assert !StartsWith(s, pat);
    ReplaceAllNoMatchAtFront(s, pat, rep);
    assert s[1..] == t;
  }

  /** A character other than '%' passes through a pass. */
  lemma PassPlain(x: char, t: string, pat: string, rep: string)
    requires |pat| == 2 && pat[0] == '%' && x != '%'
    ensures ReplaceAll([x] + t, pat, rep) == [x] + ReplaceAll(t, pat, rep)
  {
    ReplaceAllSkips([x], t, pat, rep);
  }

  /** Text without '%' passes through a pass. */
  lemma PassText(u: string, t: string, pat: string, rep: string)
    requires |pat| == 2 && pat[0] == '%' && '%' !in u
    ensures ReplaceAll(u + t, pat, rep) == u + ReplaceAll(t, pat, rep)
  {
    ReplaceAllSkips(u, t, pat, rep);
  }

  /** The four successive passes do exactly what the single left-to-right scan does. */
  lemma {:induction false} InterpolateIsExpand(date: Date, format: string)
    ensures InterpolateDateFormat(date, format) == Expand(date, format)
    decreases |format|
  {
    var rY, ry, rm, rB := YearText(date), ShortYearText(date), MonthText(date), MonthNameText(date);
    DigitsHaveNoPercent(rY);
    DigitsHaveNoPercent(ry);
    DigitsHaveNoPercent(rm);
    if format == [] {
    } else {
      var t := if |format| >= 2 && format[0] == '%' && IsPlaceholder(format[1]) then format[2..] else format[1..];
      InterpolateIsExpand(date, t);
      var t1 := ReplaceAll(t, "%Y", rY);
      var t2 := ReplaceAll(t1, "%y", ry);
      var t3 := ReplaceAll(t2, "%m", rm);
      if |format| >= 2 && format[0] == '%' && IsPlaceholder(format[1]) {
        var c := format[1];
        assert format == ['%', c] + t;
        if c == 'Y' {
          assert format == "%Y" + t;
          ReplaceAllAtFront(t, "%Y", rY);
          PassText(rY, t1, "%y", ry);
          PassText(rY, t2, "%m", rm);
          PassText(rY, t3, "%B", rB);
        } else if c == 'y' {
          PassOther(c, t, "%Y", rY);
          assert ['%', c] + t1 == "%y" + t1;
          ReplaceAllAtFront(t1, "%y", ry);
          PassText(ry, t2, "%m", rm);
          PassText(ry, t3, "%B", rB);
        } else if c == 'm' {
          PassOther(c, t, "%Y", rY);
          PassOther(c, t1, "%y", ry);
          assert ['%', c] + t2 == "%m" + t2;
          ReplaceAllAtFront(t2, "%m", rm);
          PassText(rm, t3, "%B", rB);
        } else {
          PassOther(c, t, "%Y", rY);
          PassOther(c, t1, "%y", ry);
          PassOther(c, t2, "%m", rm);
          assert ['%', c] + t3 == "%B" + t3;
          ReplaceAllAtFront(t3, "%B", rB);
        }
      } else {
        var x := format[0];
        assert format == [x] + t;
        if x != '%' {
          PassPlain(x, t, "%Y", rY);
          PassPlain(x, t1, "%y", ry);
          PassPlain(x, t2, "%m", rm);
          PassPlain(x, t3, "%B", rB);
        } else {
          // What follows the '%' never starts a placeholder, before or after each pass.
          assert t == [] || !IsPlaceholder(t[0]);
          PassPercent(t, "%Y", rY);
          if t != [] { ReplaceAllHead(t, "%Y", rY); }
          assert t1 == [] || t1[0] == t[0] || IsDigit(t1[0]);
          PassPercent(t1, "%y", ry);
          if t1 != [] { ReplaceAllHead(t1, "%y", ry); }
          assert t2 == [] || t2[0] == t[0] || IsDigit(t2[0]);
          PassPercent(t2, "%m", rm);
          if t2 != [] { ReplaceAllHead(t2, "%m", rm); }
          assert t3 == [] || t3[0] == t[0] || IsDigit(t3[0]);
          PassPercent(t3, "%B", rB);
        }
      }
    }
  }

  // ---- consequences of the single scan ----

  /** Text without '%' is copied by the scan. */
  lemma {:induction false} ExpandText(date: Date, u: string, t: string)
    requires '%' !in u
    ensures Expand(date, u + t) == u + Expand(date, t)
    decreases |u|
  {
    if u != [] {
      assert u[0] != '%';
      assert (u + t)[1..] == u[1..] + t;
      ExpandText(date, u[1..], t);
      assert u == [u[0]] + u[1..];
    } else {
      assert u + t == t;
    }
  }

  /** A placeholder at the front is replaced by its text. */
  lemma ExpandPlaceholder(date: Date, c: char, t: string)
    requires IsPlaceholder(c)
    ensures Expand(date, ['%', c] + t) == PlaceholderText(date, c) + Expand(date, t)
  {
    assert (['%', c] + t)[2..] == t;
  }

  /** A template without '%' is used as the directory name unchanged. */
  lemma TemplateWithoutPlaceholder(date: Date, format: string)
    requires '%' !in format
    ensures InterpolateDateFormat(date, format) == format
  {
    InterpolateIsExpand(date, format);
    ExpandText(date, format, "");
    assert format + "" == format;
  }

  // ---- the unit tests of file_sorting.rs ----

  lemma YearDigits2024()
    ensures PadDigits(2024, 4) == "2024"
  {
    assert PadDigits(2, 1) == "2";
    assert PadDigits(20, 2) == "20";
    assert PadDigits(202, 3) == "202";
  }

  lemma ShortYearDigits24()
    ensures PadDigits(24, 2) == "24"
  {
    assert PadDigits(2, 1) == "2";
  }

  lemma Text2024(d: Date)
    requires d.year == 2024
    ensures YearText(d) == "2024" && ShortYearText(d) == "24"
  {
    YearDigits2024();
    ShortYearDigits24();
    assert d.year % 100 == 24;
  }

  lemma MonthTexts(d: Date)
    ensures d.month == 3 ==> MonthText(d) == "03" && MonthNameText(d) == "März"
    ensures d.month == 12 ==> MonthText(d) == "12" && MonthNameText(d) == "Dezember"
  {
  }

  /** A fixed prefix followed by one placeholder. */
  lemma PrefixAndPlaceholder(d: Date, prefix: string, c: char, f: string)
    requires IsPlaceholder(c) && '%' !in prefix && f == prefix + ['%', c]
    ensures InterpolateDateFormat(d, f) == prefix + PlaceholderText(d, c)
  {
    InterpolateIsExpand(d, f);
    assert f == prefix + (['%', c] + "");
    ExpandText(d, prefix, ['%', c] + "");
    ExpandPlaceholder(d, c, "");
  }

  /** `PrefixAndPlaceholder` with the placeholder's expansion and the whole result given. */
  lemma PrefixTest(d: Date, prefix: string, c: char, text: string, f: string, out: string)
    requires IsPlaceholder(c) && '%' !in prefix && f == prefix + ['%', c]
    requires PlaceholderText(d, c) == text && out == prefix + text
    ensures InterpolateDateFormat(d, f) == out
  {
    PrefixAndPlaceholder(d, prefix, c, f);
  }

  lemma YearOnly(d: Date, f: string)
    requires d.year == 2024 && d.month == 12 && f == "%Y"
    ensures InterpolateDateFormat(d, f) == "2024"
  {
    YearPlaceholders2024(d);
    PrefixTest(d, "", 'Y', "2024", f, "2024");
  }

  /** The template "Hello: %<c>" and the text "Hello: <text>" split at the placeholder. */
  lemma HelloParts(prefix: string, c: char, text: string, f: string, out: string)
    requires prefix == "Hello: " && f == "Hello: %" + [c] && out == "Hello: " + text
    ensures '%' !in prefix && f == prefix + ['%', c] && out == prefix + text
  {
  }

  lemma GreetingWithYear(d: Date, f: string)
    requires d.year == 2024 && d.month == 12 && f == "Hello: %Y"
    ensures InterpolateDateFormat(d, f) == "Hello: 2024"
  {
    YearPlaceholders2024(d);
    HelloParts("Hello: ", 'Y', "2024", f, "Hello: 2024");
    PrefixTest(d, "Hello: ", 'Y', "2024", f, "Hello: 2024");
  }

  lemma GreetingWithShortYear(d: Date, f: string)
    requires d.year == 2024 && d.month == 12 && f == "Hello: %y"
    ensures InterpolateDateFormat(d, f) == "Hello: 24"
  {
    YearPlaceholders2024(d);
    HelloParts("Hello: ", 'y', "24", f, "Hello: 24");
    PrefixTest(d, "Hello: ", 'y', "24", f, "Hello: 24");
  }

  /** A fixed text, a placeholder, a fixed text and a second placeholder. */
  lemma TwoPlaceholders(d: Date, p1: string, c1: char, p2: string, c2: char, f: string)
    requires IsPlaceholder(c1) && IsPlaceholder(c2) && '%' !in p1 && '%' !in p2
    requires f == p1 + ['%', c1] + p2 + ['%', c2]
    ensures InterpolateDateFormat(d, f) ==
      p1 + PlaceholderText(d, c1) + p2 + PlaceholderText(d, c2)
  {
    var t2 := ['%', c2] + "";
    var t1 := p2 + t2;
    var t0 := ['%', c1] + t1;
    assert f == p1 + t0;
    calc {
      Expand(d, f);
      { ExpandText(d, p1, t0); }
      p1 + Expand(d, t0);
      { ExpandPlaceholder(d, c1, t1); }
      p1 + (PlaceholderText(d, c1) + Expand(d, t1));
      { ExpandText(d, p2, t2); }
      p1 + (PlaceholderText(d, c1) + (p2 + Expand(d, t2)));
      { ExpandPlaceholder(d, c2, ""); }
      p1 + (PlaceholderText(d, c1) + (p2 + (PlaceholderText(d, c2) + Expand(d, ""))));
      p1 + PlaceholderText(d, c1) + p2 + PlaceholderText(d, c2);
    }
    InterpolateIsExpand(d, f);
  }

  /** `TwoPlaceholders` with the expansions of both placeholders and the whole result given. */
  lemma TwoPlaceholderValues(d: Date, p1: string, c1: char, p2: string, c2: char, f: string,
                             t1: string, t2: string, out: string)
    requires IsPlaceholder(c1) && IsPlaceholder(c2) && '%' !in p1 && '%' !in p2
    requires f == p1 + ['%', c1] + p2 + ['%', c2]
    requires PlaceholderText(d, c1) == t1 && PlaceholderText(d, c2) == t2 && out == p1 + t1 + p2 + t2
    ensures InterpolateDateFormat(d, f) == out
  {
    TwoPlaceholders(d, p1, c1, p2, c2, f);
  }

  /** The templates "Year %Y Month %m" and "Year %Y Month %B" split into texts and placeholders. */
  lemma YearMonthTemplate(p1: string, p2: string, c: char, f: string)
    requires p1 == "Year " && p2 == " Month " && f == "Year %Y Month %" + [c]
    ensures f == p1 + ['%', 'Y'] + p2 + ['%', c]
  {
  }

  /** The expected texts "Year 2024 Month ..." put together. */
  lemma YearMonthResult(p1: string, p2: string, month: string, out: string)
    requires p1 == "Year " && p2 == " Month " && out == "Year 2024 Month " + month
    ensures out == p1 + "2024" + p2 + month
  {
  }

  lemma YearPlaceholders2024(d: Date)
    requires d.year == 2024
    ensures PlaceholderText(d, 'Y') == "2024" && PlaceholderText(d, 'y') == "24"
  {
    Text2024(d);
  }

  lemma MonthPlaceholders(d: Date)
    ensures d.month == 3 ==> PlaceholderText(d, 'm') == "03" && PlaceholderText(d, 'B') == "März"
    ensures d.month == 12 ==> PlaceholderText(d, 'm') == "12" && PlaceholderText(d, 'B') == "Dezember"
  {
    MonthTexts(d);
  }

  /** A "Year %Y Month %<c>" template for a date in 2024 whose placeholder `c` expands to `month`. */
  lemma YearMonthTest(d: Date, c: char, month: string, f: string, out: string)
    requires d.year == 2024 && IsPlaceholder(c) && PlaceholderText(d, c) == month
    requires f == "Year %Y Month %" + [c] && out == "Year 2024 Month " + month
    ensures InterpolateDateFormat(d, f) == out
  {
    YearPlaceholders2024(d);
    var p1, p2 := "Year ", " Month ";
    YearMonthTemplate(p1, p2, c, f);
    YearMonthResult(p1, p2, month, out);
    TwoPlaceholderValues(d, p1, 'Y', p2, c, f, "2024", month, out);
  }

  lemma YearAndMonthNumber(d: Date, f: string)
    requires d.year == 2024 && d.month == 12 && f == "Year %Y Month %m"
    ensures InterpolateDateFormat(d, f) == "Year 2024 Month 12"
  {
    MonthPlaceholders(d);
    YearMonthTest(d, 'm', "12", f, "Year 2024 Month 12");
  }

  lemma YearAndPaddedMonthNumber(d: Date, f: string)
    requires d.year == 2024 && d.month == 3 && f == "Year %Y Month %m"
    ensures InterpolateDateFormat(d, f) == "Year 2024 Month 03"
  {
    MonthPlaceholders(d);
    YearMonthTest(d, 'm', "03", f, "Year 2024 Month 03");
  }

  lemma YearAndMonthNameDecember(d: Date, f: string)
    requires d.year == 2024 && d.month == 12 && f == "Year %Y Month %B"
    ensures InterpolateDateFormat(d, f) == "Year 2024 Month Dezember"
  {
    MonthPlaceholders(d);
    YearMonthTest(d, 'B', "Dezember", f, "Year 2024 Month Dezember");
  }

  lemma YearAndMonthNameMarch(d: Date, f: string)
    requires d.year == 2024 && d.month == 3 && f == "Year %Y Month %B"
    ensures InterpolateDateFormat(d, f) == "Year 2024 Month März"
  {
    MonthPlaceholders(d);
    YearMonthTest(d, 'B', "März", f, "Year 2024 Month März");
  }

  // ---- sort_files ----

  /** Why placing one file failed; the Rust code returns the first such error. */
  datatype SortError =
    | NoCreationDate       // neither EXIF nor the file system gave a creation time
    | DirectoryNotCreated  // `create_dir_all` failed
    | NoFileName           // "File has no name"

  /** `<target>/<directory name from the template>/<file name>`. */
  function SortedPath(format: string, target: string, date: Date, name: string): string
  {
    StdPath.Join(StdPath.Join(target, InterpolateDateFormat(date, format)), name)
  }

  /**
   * The error placing file `path` runs into, in the order the loop body
   * meets them, or `None` when it can be placed.
   */
  function StepError(path: string, date: Option<Date>, created: bool): (r: Option<SortError>)
    ensures r.None? ==> date.Some? && created && StdPath.FileName(path).Some?
  {
    if date.None? then Some(NoCreationDate)
    else if !created then Some(DirectoryNotCreated)
    else if StdPath.FileName(path).None? then Some(NoFileName)
    else None
  }

  /** A file is placed exactly when all three succeed; a missing date is reported before a missing directory. */
  lemma StepErrorCases(path: string, date: Option<Date>, created: bool)
    ensures StepError(path, date, created).None? <==> date.Some? && created && StdPath.FileName(path).Some?
    ensures StepError(path, date, created) == Some(NoCreationDate) <==> date.None?
    ensures StepError(path, date, created) == Some(DirectoryNotCreated) <==> date.Some? && !created
    ensures StepError(path, date, created) == Some(NoFileName) <==>
      date.Some? && created && StdPath.FileName(path).None?
  {
  }

  /**
   * One file as `sort_files` meets it: its path, the creation date the EXIF
   * data or else the file system yields (`None`: both failed), and whether
   * creating its directory succeeds.
   */
  datatype SourceFile = SourceFile(path: string, creationDate: Option<Date>, directoryCreated: bool)

  /** Where one file goes, or the error that stops the loop at it. */
  function Placement(format: string, target: string, f: SourceFile): Result<string, SortError>
  {
    match StepError(f.path, f.creationDate, f.directoryCreated)
    case Some(e) => Failure(e)
    case None => Success(SortedPath(format, target, f.creationDate.value, StdPath.FileName(f.path).value))
  }

  /**
   * A file is placed exactly when none of the three steps fails; it then
   * goes to its sorted path, and otherwise the first failing step is the
   * error.
   */
  lemma PlacementCases(format: string, target: string, f: SourceFile)
    ensures var r := Placement(format, target, f);
      (r.Success? <==> f.creationDate.Some? && f.directoryCreated && StdPath.FileName(f.path).Some?) &&
      (r.Failure? ==> r.error == StepError(f.path, f.creationDate, f.directoryCreated).value) &&
      (r.Success? ==> r.value == SortedPath(format, target, f.creationDate.value, StdPath.FileName(f.path).value))
  {
  }

  /** File `i` is the first that cannot be placed, and fails with `e`. */
  predicate FirstError(format: string, target: string, files: seq<SourceFile>, i: int, e: SortError)
    requires 0 <= i < |files|
  {
    (forall k :: 0 <= k < i ==> Placement(format, target, files[k]).Success?) &&
    Placement(format, target, files[i]) == Failure(e)
  }

  /** One pass of the loop body of `sort_files`: date, directory, file name, in that order. */
  method PlaceFile(format: string, target: string, f: SourceFile) returns (r: Result<string, SortError>)
    ensures r == Placement(format, target, f)
  {
    if f.creationDate.None? {
      return Failure(NoCreationDate);
    }
    var directory := StdPath.Join(target, InterpolateDateFormat(f.creationDate.value, format));
    if !f.directoryCreated {
      return Failure(DirectoryNotCreated);
    }
    var name := StdPath.FileName(f.path);
    if name.None? {
      return Failure(NoFileName);
    }
    return Success(StdPath.Join(directory, name.value));
  }

  /**
   * `sort_files` with the `CreationDate` variant: every file's new path in
   * input order, or the error of the first file that cannot be placed.
   */
  method SortFiles(format: string, files: seq<SourceFile>, targetDirectory: string)
    returns (r: Result<seq<string>, SortError>)
    ensures r.Success? <==> forall i :: 0 <= i < |files| ==> Placement(format, targetDirectory, files[i]).Success?
    ensures r.Success? ==> |r.value| == |files|
    ensures r.Success? ==> forall i :: 0 <= i < |files| ==>
      Success(r.value[i]) == Placement(format, targetDirectory, files[i])
    ensures r.Failure? ==> exists i :: 0 <= i < |files| && FirstError(format, targetDirectory, files, i, r.error)
  {
    var newPaths := [];
    var i := 0;
    while i < |files|
      invariant 0 <= i <= |files| && |newPaths| == i
      invariant forall k :: 0 <= k < i ==> Success(newPaths[k]) == Placement(format, targetDirectory, files[k])
    {
      var placed := PlaceFile(format, targetDirectory, files[i]);
      if placed.Failure? {
        assert FirstError(format, targetDirectory, files, i, placed.error);
        return Failure(placed.error);
      }
      newPaths := newPaths + [placed.value];
      i := i + 1;
    }
    return Success(newPaths);
  }

  /** Every sorted path ends in the file's own name, one directory below the template's. */
  lemma SortedPathEndsInName(format: string, target: string, date: Date, path: string)
    requires StdPath.FileName(path).Some?
    ensures StdPath.FileName(SortedPath(format, target, date, StdPath.FileName(path).value)) == StdPath.FileName(path)
  {
    StdPath.JoinFileName(StdPath.Join(target, InterpolateDateFormat(date, format)), StdPath.FileName(path).value);
  }

  lemma Digits2023May()
    ensures PadDigits(2023, 4) == "2023" && PadDigits(5, 2) == "05"
  {
    assert PadDigits(2, 1) == "2";
    assert PadDigits(20, 2) == "20";
    assert PadDigits(202, 3) == "202";
    assert PadDigits(0, 1) == "0";
  }

  lemma Texts2023May(d: Date)
    requires d.year == 2023 && d.month == 5
    ensures PlaceholderText(d, 'Y') == "2023" && PlaceholderText(d, 'm') == "05"
  {
    Digits2023May();
  }

  lemma DirectoryName2023May(d: Date, f: string)
    requires d.year == 2023 && d.month == 5 && f == "%Y_%m"
    ensures InterpolateDateFormat(d, f) == "2023_05"
  {
    Texts2023May(d);
    TwoPlaceholderValues(d, "", 'Y', "_", 'm', f, "2023", "05", "2023_05");
  }

  lemma JoinTestDirectories(target: string, dir: string, name: string)
    requires target == "./new_dir" && dir == "2023_05" && name != [] && name[0] != '/'
    ensures StdPath.Join(StdPath.Join(target, dir), name) == "./new_dir/2023_05/" + name
  {
    assert StdPath.Join(target, dir) == "./new_dir/2023_05";
  }

  /**
   * test_sort_files_creation_year_month, for any file name: the file
   * "./test/<name>", dated May 2023 and sorted with "%Y_%m" into "./new_dir",
   * lands in "./new_dir/2023_05/<name>" (the test uses the name
   * "image-created-2023-05.jpg").
   */
  lemma SortTestImage(format: string, target: string, dir: string, d: Date, name: string)
    requires format == "%Y_%m" && target == "./new_dir" && dir == "./test" && d.year == 2023 && d.month == 5
    requires name != "" && name != "." && name != ".." && '/' !in name
    ensures Placement(format, target, SourceFile(StdPath.Join(dir, name), Some(d), true)) ==
      Success("./new_dir/2023_05/" + name)
    ensures StdPath.Join(dir, name) == "./test/" + name
  {
    StdPath.JoinFileName(dir, name);
    DirectoryName2023May(d, format);
    JoinTestDirectories(target, "2023_05", name);
    assert dir + "/" == "./test/";
  }
}
