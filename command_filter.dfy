/** The search predicate of the command menu: a case-insensitive substring test in which
    German umlauts and the sharp s are folded to plain letters. */
module CommandFilter {
  import opened Strings

  /** `toLocaleLowerCase`, restricted to ASCII letters and the German umlauts. */
  function LowerChar(c: char): char
  {
    if 'A' <= c <= 'Z' then (c as int + 32) as char
    else if c == 'Ä' then 'ä'
    else if c == 'Ö' then 'ö'
    else if c == 'Ü' then 'ü'
    else c
  }

  function Lower(s: string): (r: string)
    ensures |r| == |s| && forall i :: 0 <= i < |s| ==> r[i] == LowerChar(s[i])
  {
    seq(|s|, i requires 0 <= i < |s| => LowerChar(s[i]))
  }

  /** `prepareSimpleFuzzySearch`: lower-case, then replace every "ß", "ä", "ü", "ö" in turn. */
  function Prepare(s: string): string
  {
    ReplaceUmlauts(Lower(s))
  }

  /** The four chained `replaceAll` calls, in the order the source makes them. */
  function ReplaceUmlauts(s: string): string
  {
    ReplaceAll(ReplaceAll(ReplaceAll(ReplaceAll(s, "ß", "ss"), "ä", "a"), "ü", "u"), "ö", "o")
  }

  /** The chained replacements act on the two halves of a string separately. */
  lemma ReplaceUmlautsAppend(c: string, t: string)
    ensures ReplaceUmlauts(c + t) == ReplaceUmlauts(c) + ReplaceUmlauts(t)
  {
    ReplaceCharAppend(c, t, 'ß', "ss");
    var c1, t1 := ReplaceAll(c, "ß", "ss"), ReplaceAll(t, "ß", "ss");
    ReplaceCharAppend(c1, t1, 'ä', "a");
    var c2, t2 := ReplaceAll(c1, "ä", "a"), ReplaceAll(t1, "ä", "a");
    ReplaceCharAppend(c2, t2, 'ü', "u");
    var c3, t3 := ReplaceAll(c2, "ü", "u"), ReplaceAll(t2, "ü", "u");
    ReplaceCharAppend(c3, t3, 'ö', "o");
  }

  /** `filter`: 1 when the prepared search occurs in the prepared value, otherwise 0. */
  function Filter(value: string, search: string): (r: int)
    ensures r == 0 || r == 1
    ensures r == 1 <==> exists i :: OccursAt(Prepare(value), Prepare(search), i)
  {
    ContainsIffOccurrence(Prepare(value), Prepare(search));
    if Contains(Prepare(value), Prepare(search)) then 1 else 0
  }

  // ---- an independent, character-by-character description of the folding ----

  /** What one character of the input becomes in the prepared string. */
  function FoldChar(c: char): string
  {
    var l := LowerChar(c);
    if l == 'ß' then "ss"
    else if l == 'ä' then "a"
    else if l == 'ü' then "u"
    else if l == 'ö' then "o"
    else [l]
  }

  function FoldAll(s: string): string
  {
    if s == [] then "" else FoldChar(s[0]) + FoldAll(s[1..])
  }

  /** The four chained replacements act on one character as `FoldChar` says. */
  lemma PrepareOneChar(c: char)
    ensures Prepare([c]) == FoldChar(c)
  {
    var l := LowerChar(c);
    assert Lower([c]) == [l];
    var r1 := ReplaceAll([l], "ß", "ss");
    if l == 'ß' {
      ReplaceAllAtFront("", "ß", "ss");
      assert [l] == "ß" + "";
      assert r1 == "ss";
      assert ReplaceAll("ss", "ä", "a") == "ss";
      assert ReplaceAll("ss", "ü", "u") == "ss";
      assert ReplaceAll("ss", "ö", "o") == "ss";
    } else {
      assert r1 == [l];
    }
  }

  /** The chained replacements of `Prepare` fold the input character by character. */
  lemma {:induction false} PrepareIsFold(s: string)
    ensures Prepare(s) == FoldAll(s)
    decreases |s|
  {
    if s == [] {
      assert Lower(s) == [];
    } else {
      PrepareIsFold(s[1..]);
      PrepareOneChar(s[0]);
      var c, t := [LowerChar(s[0])], Lower(s[1..]);
      assert Lower(s) == c + t;
      ReplaceUmlautsAppend(c, t);
      assert Lower([s[0]]) == c;
    }
  }

  /** A prepared string holds no upper-case ASCII letter, no umlaut and no sharp s. */
  lemma {:induction false} PreparedIsFolded(s: string)
    ensures forall k :: 0 <= k < |Prepare(s)| ==>
      var d := Prepare(s)[k]; !('A' <= d <= 'Z') && d !in "ÄÖÜäöüß"
  {
    PrepareIsFold(s);
    FoldAllIsFolded(s);
  }

  lemma {:induction false} FoldAllIsFolded(s: string)
    ensures forall k :: 0 <= k < |FoldAll(s)| ==>
      var d := FoldAll(s)[k]; !('A' <= d <= 'Z') && d !in "ÄÖÜäöüß"
    decreases |s|
  {
    if s != [] {
      FoldAllIsFolded(s[1..]);
      var f, rest := FoldChar(s[0]), FoldAll(s[1..]);
      assert forall k :: 0 <= k < |f| + |rest| ==>
        (f + rest)[k] == if k < |f| then f[k] else rest[k - |f|];
    }
  }

  /** The empty search matches every value. */
  lemma EmptySearchMatchesAll(value: string)
    ensures Filter(value, "") == 1
  {
    assert Lower("") == "";
    assert Prepare("") == "";
    assert OccursAt(Prepare(value), "", 0);
  }

  /** Upper and lower case of a letter are indistinguishable to the filter. */
  lemma CaseInsensitive(c: char)
    requires 'A' <= c <= 'Z' || c == 'Ä' || c == 'Ö' || c == 'Ü'
    ensures Prepare([c]) == Prepare([LowerChar(c)])
    ensures Prepare([c]) != [c]
  {
    PrepareOneChar(c);
    PrepareOneChar(LowerChar(c));
    CapitalFolds(c);
  }

  lemma CapitalFolds(c: char)
    requires 'A' <= c <= 'Z' || c == 'Ä' || c == 'Ö' || c == 'Ü'
    ensures FoldChar(c) == FoldChar(LowerChar(c)) && FoldChar(c) != [c]
  {
  }

  /** Lower-casing twice is lower-casing once. */
  lemma LowerCharIdempotent(c: char)
    ensures LowerChar(LowerChar(c)) == LowerChar(c)
  {
  }

  /** Folding does not see case: a string folds like its lower-case form. */
  lemma {:induction false} FoldIgnoresCase(s: string)
    ensures FoldAll(Lower(s)) == FoldAll(s)
    decreases |s|
  {
    if s != [] {
      FoldIgnoresCase(s[1..]);
      assert Lower(s)[1..] == Lower(s[1..]);
      LowerCharIdempotent(s[0]);
    }
  }

  /** Preparing a lower-cased string gives what preparing the string itself gives. */
  lemma PrepareIgnoresCase(s: string)
    ensures Prepare(Lower(s)) == Prepare(s)
  {
    PrepareIsFold(s);
    PrepareIsFold(Lower(s));
    FoldIgnoresCase(s);
  }

  /** The filter answers the same for any value and search as for their lower-case forms. */
  lemma FilterIgnoresCase(value: string, search: string)
    ensures Filter(value, search) == Filter(Lower(value), Lower(search))
  {
    PrepareIgnoresCase(value);
    PrepareIgnoresCase(search);
  }

  lemma FoldCons(c: char, t: string)
    ensures FoldAll([c] + t) == FoldChar(c) + FoldAll(t)
  {
    assert ([c] + t)[1..] == t;
  }

  /** The filter decided on the folded strings. */
  lemma FilterByFold(value: string, search: string)
    ensures Filter(value, search) == 1 <==> exists i :: OccursAt(FoldAll(value), FoldAll(search), i)
  {
    PrepareIsFold(value);
    PrepareIsFold(search);
  }

  lemma FoldGruesse(value: string)
    requires value == "Grüße"
    ensures FoldAll(value) == "grusse"
  {
    FoldCons('e', "");
    FoldCons('ß', "e");
    FoldCons('ü', "ße");
    FoldCons('r', "üße");
    FoldCons('G', "rüße");
    assert value == ['G'] + "rüße";
  }

  /** Upper-case ASCII letters fold to their lower-case forms, one for one. */
  lemma {:induction false} FoldCapitals(s: string)
    requires forall k :: 0 <= k < |s| ==> 'A' <= s[k] <= 'Z'
    ensures FoldAll(s) == Lower(s)
    decreases |s|
  {
    if s != [] {
      FoldCapitals(s[1..]);
      var c := s[0];
      assert 'a' <= LowerChar(c) <= 'z';
      assert FoldChar(c) == [LowerChar(c)];
      assert Lower(s) == [LowerChar(c)] + Lower(s[1..]);
    }
  }

  lemma LowerGruss(search: string)
    requires search == "GRUSS"
    ensures Lower(search) == "gruss"
  {
  }

  /** Umlauts and the sharp s match their plain spellings. */
  lemma UmlautsFolded(value: string, search: string)
    requires value == "Grüße" && search == "GRUSS"
    ensures Prepare(value) == "grusse"
    ensures Filter(value, search) == 1
  {
    FilterByFold(value, search);
    PrepareIsFold(value);
    FoldGruesse(value);
    FoldCapitals(search);
    LowerGruss(search);
    assert OccursAt(FoldAll(value), FoldAll(search), 0);
  }

  /** Lower-case ASCII letters are left as they are. */
  lemma {:induction false} FoldPlain(s: string)
    requires forall k :: 0 <= k < |s| ==> 'a' <= s[k] <= 'z'
    ensures FoldAll(s) == s
    decreases |s|
  {
    if s != [] {
      FoldPlain(s[1..]);
    }
  }

  lemma FoldQuartal(value: string)
    requires value == "Quartal"
    ensures FoldAll(value) == "quartal"
  {
    var t := value[1..];
    FoldPlain(t);
    FoldCons('Q', t);
    assert value == ['Q'] + t;
  }

  lemma FoldAlter(search: string)
    requires search == "alter"
    ensures FoldAll(search) == "alter"
  {
    FoldPlain(search);
  }

  /** The test is contiguous: the letters of "alter" occur in "Quartal" only with gaps. */
  lemma ContiguousOnly(value: string, search: string)
    requires value == "Quartal" && search == "alter"
    ensures Filter(value, search) == 0
  {
    FilterByFold(value, search);
    FoldQuartal(value);
    FoldAlter(search);
    NoOccurrence(FoldAll(value), FoldAll(search));
  }

  /** A seven-letter text in which a five-letter pattern could only start at 0, 1 or 2, and does not. */
  lemma NoOccurrence(v: string, p: string)
    requires |v| == 7 && |p| == 5
    requires v[0] != p[0] && v[1] != p[0] && v[3] != p[1]
    ensures forall i :: !OccursAt(v, p, i)
  {
    forall i | 0 <= i <= 2
      ensures !OccursAt(v, p, i)
    {
      var w := v[i..i + |p|];
      assert w[0] == v[i] && w[1] == v[i + 1];
    }
  }
}
