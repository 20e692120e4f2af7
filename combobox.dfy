// The select box behind the tag filter (src/components/combobox/Combobox.tsx):
// which options count as selected, what choosing an option does to the value,
// and the text shown on the closed box.

module Combobox {
  import opened Wrappers
  import opened Seqs
  import opened Strings

  datatype Item = Item(value: string, labelText: string)

  /**
   * The controlled value: a list of values when several may be chosen, one
   * value or null (`None`) when only one may be.
   */
  datatype Value = Multi(values: seq<string>) | Single(choice: Option<string>)

  /** `isSelected` and the filter of `selectedOptions`. */
  predicate IsSelected(v: Value, option: Item)
  {
    match v
    case Multi(values) => option.value in values
    case Single(choice) => choice == Some(option.value)
  }

  /** `selectedOptions`: the options the value selects, in the order of the options. */
  function SelectedOptions(options: seq<Item>, v: Value): (r: seq<Item>)
    ensures IsSubsequence(r, options)
    ensures forall o | o in options :: o in r <==> IsSelected(v, o)
    ensures forall o | o in r :: IsSelected(v, o)
  {
    Filter(options, (o: Item) => IsSelected(v, o))
  }

  /** The options a single value selects all carry that value. */
  lemma SingleSelectsOneValue(options: seq<Item>, choice: string, o1: Item, o2: Item)
    requires o1 in SelectedOptions(options, Single(Some(choice)))
    requires o2 in SelectedOptions(options, Single(Some(choice)))
    ensures o1.value == o2.value == choice
  {
  }

  /** Selecting nothing, a null single value shows no option as selected. */
  lemma NullSelectsNothing(options: seq<Item>)
    ensures SelectedOptions(options, Single(None)) == []
  {
  }

  /**
   * `onSelect`: the new value, and whether the popup closes. Several values:
   * a chosen value is removed wherever it occurs, another one is appended;
   * the popup stays open. One value: choosing the current one sets
   * `emptyValue`, any other becomes the value; the popup closes.
   */
  function OnSelect(v: Value, option: Item, emptyValue: Option<string>): (r: (Value, bool))
    ensures r.0.Multi? <==> v.Multi?
    ensures r.1 <==> v.Single?
  {
    match v
    case Multi(values) =>
      if option.value in values then (Multi(Filter(values, (w: string) => w != option.value)), false)
      else (Multi(values + [option.value]), false)
    case Single(choice) =>
      if choice == Some(option.value) then (Single(emptyValue), true)
      else (Single(Some(option.value)), true)
  }

  /** The default of `emptyValue`: the empty string. */
  const DefaultEmptyValue: Option<string> := Some("")

  /**
   * With several values, choosing an option flips whether it is selected
   * and leaves every other value as it was.
   */
  lemma MultiSelectToggles(values: seq<string>, option: Item, emptyValue: Option<string>)
    ensures var next := OnSelect(Multi(values), option, emptyValue).0;
      (IsSelected(next, option) <==> !IsSelected(Multi(values), option)) &&
      forall w :: w != option.value ==> (w in next.values <==> w in values)
  {
  }

  /** Choosing a value that is not selected and then choosing it again restores the list. */
  lemma {:induction false} MultiSelectTwiceRestores(values: seq<string>, option: Item, emptyValue: Option<string>)
    requires option.value !in values
    ensures OnSelect(OnSelect(Multi(values), option, emptyValue).0, option, emptyValue).0 == Multi(values)
  {
    var p := (w: string) => w != option.value;
    assert OnSelect(Multi(values), option, emptyValue).0 == Multi(values + [option.value]);
    FilterAppend(values, [option.value], p);
    FilterKeepsAll(values, p);
    assert Filter([option.value], p) == [];
  }

  /**
   * With one value, choosing an option selects exactly that option, unless
   * it was selected already, in which case the value becomes `emptyValue`.
   */
  lemma SingleSelectReplaces(choice: Option<string>, option: Item, emptyValue: Option<string>)
    ensures var next := OnSelect(Single(choice), option, emptyValue).0;
      next == if IsSelected(Single(choice), option) then Single(emptyValue) else Single(Some(option.value))
  {
  }

  /** Choosing the same option twice with one value and the default `emptyValue` leaves the empty string. */
  lemma SingleSelectTwice(choice: Option<string>, option: Item)
    requires choice != Some(option.value) && option.value != ""
    ensures OnSelect(OnSelect(Single(choice), option, DefaultEmptyValue).0, option, DefaultEmptyValue).0
      == Single(Some(""))
  {
  }

  /** The preview: either what the caller's `previewFn` draws for the given options, or a text. */
  datatype Preview = Custom(shown: seq<Item>) | Text(text: string)

  /** The default of `maxPreviewCount`. */
  const DefaultMaxPreviewCount: int := 3

  const CountSuffix := " ausgewählt"

  function Labels(options: seq<Item>): (r: seq<string>)
    ensures |r| == |options|
    ensures forall i :: 0 <= i < |r| ==> r[i] == options[i].labelText
  {
    seq(|options|, i requires 0 <= i < |options| => options[i].labelText)
  }

  /**
   * `optionPreview`: with `previewFn`, the selected options handed to it;
   * otherwise their count and " ausgewählt" when more than `maxPreviewCount`
   * are selected, else their labels joined with ", ".
   */
  function OptionPreview(options: seq<Item>, v: Value, hasPreviewFn: bool, maxPreviewCount: int): Preview
  {
    var selected := SelectedOptions(options, v);
    if hasPreviewFn then Custom(selected)
    else if |selected| > maxPreviewCount then Text(NatToString(|selected|) + CountSuffix)
    else Text(Join(Labels(selected), ", "))
  }

  /**
   * What the preview shows: the custom preview gets the selected options;
   * a count text reads back as the number of selected options; otherwise no
   * selection shows nothing, a single selection shows its label, and more
   * show their labels joined with ", " (spelled out by `LabelPreview`).
   */
  lemma PreviewContents(options: seq<Item>, v: Value, hasPreviewFn: bool, maxPreviewCount: int)
    ensures var p := OptionPreview(options, v, hasPreviewFn, maxPreviewCount);
      var selected := SelectedOptions(options, v);
      (hasPreviewFn <==> p.Custom?) &&
      (p.Custom? ==> p.shown == selected) &&
      (!hasPreviewFn && |selected| > maxPreviewCount ==>
        |p.text| > |CountSuffix| &&
        p.text[|p.text| - |CountSuffix|..] == CountSuffix &&
        AllDigits(p.text[..|p.text| - |CountSuffix|]) &&
        DecimalValue(p.text[..|p.text| - |CountSuffix|]) == |selected|) &&
      (!hasPreviewFn && |selected| <= maxPreviewCount && |selected| == 0 ==> p.text == "") &&
      (!hasPreviewFn && |selected| <= maxPreviewCount && |selected| == 1 ==> p.text == selected[0].labelText) &&
      (!hasPreviewFn && |selected| <= maxPreviewCount ==> p.text == Join(Labels(selected), ", "))
  {
    var selected := SelectedOptions(options, v);
    var p := OptionPreview(options, v, hasPreviewFn, maxPreviewCount);
    if hasPreviewFn {
      assert p == Custom(selected);
    } else if |selected| > maxPreviewCount {
      assert p == Text(NatToString(|selected|) + CountSuffix);
      CountPreview(|selected|);
    } else if |selected| <= 1 {
      assert p == Text(Join(Labels(selected), ", "));
      LabelPreview(selected);
    }
  }

  /** The count text reads back as the count, followed by " ausgewählt". */
  lemma CountPreview(count: nat)
    ensures var t := NatToString(count) + CountSuffix;
      |t| > |CountSuffix| &&
      t[|t| - |CountSuffix|..] == CountSuffix &&
      AllDigits(t[..|t| - |CountSuffix|]) &&
      DecimalValue(t[..|t| - |CountSuffix|]) == count
  {
    var n := NatToString(count);
    var t := n + CountSuffix;
    assert t[..|t| - |CountSuffix|] == n;
    assert t[|t| - |CountSuffix|..] == CountSuffix;
    NatToStringValue(count);
  }

  /** The joined labels: nothing, one label, or the front's labels, ", " and the last label. */
  lemma LabelPreview(selected: seq<Item>)
    ensures |selected| == 0 ==> Join(Labels(selected), ", ") == ""
    ensures |selected| == 1 ==> Join(Labels(selected), ", ") == selected[0].labelText
    ensures |selected| >= 2 ==> var n := |selected| - 1;
      Join(Labels(selected), ", ") == Join(Labels(selected[..n]), ", ") + ", " + selected[n].labelText
  {
    if |selected| >= 2 {
      LabelsJoinedLast(selected, ", ");
    }
  }

  /** The labels of a longer list are those of its front and then the last label. */
  lemma LabelsSnoc(selected: seq<Item>)
    requires selected != []
    ensures Labels(selected) == Labels(selected[..|selected| - 1]) + [selected[|selected| - 1].labelText]
  {
    var n := |selected| - 1;
    var a, front := Labels(selected), Labels(selected[..n]);
    var b := front + [selected[n].labelText];
    forall i | 0 <= i < |a|
      ensures a[i] == b[i]
    {
      if i < n {
        assert b[i] == front[i];
      }
    }
  }

  /** Joined labels of two or more options end with the separator and the last label. */
  lemma LabelsJoinedLast(selected: seq<Item>, sep: string)
    requires |selected| >= 2
    ensures var n := |selected| - 1;
      Join(Labels(selected), sep) == Join(Labels(selected[..n]), sep) + sep + selected[n].labelText
  {
    var n := |selected| - 1;
    var front, last := Labels(selected[..n]), selected[n].labelText;
    LabelsSnoc(selected);
    JoinSnoc(front, last, sep);
  }

  /** Whether `value && value.length > 0` holds: a non-empty list, or a non-empty string. */
  predicate HasValue(v: Value)
  {
    match v
    case Multi(values) => |values| > 0
    case Single(choice) => choice.Some? && choice.value != ""
  }

  const DefaultEmptyPreviewText := "Option wählen..."

  /** What the closed box shows: the preview when there is a value, else the empty text or its default. */
  function TriggerContent(options: seq<Item>, v: Value, hasPreviewFn: bool, maxPreviewCount: int,
                          emptyPreviewText: Option<string>): (r: Preview)
    ensures HasValue(v) ==> r == OptionPreview(options, v, hasPreviewFn, maxPreviewCount)
    ensures !HasValue(v) && emptyPreviewText.Some? ==> r == Text(emptyPreviewText.value)
    ensures !HasValue(v) && emptyPreviewText.None? ==> r == Text(DefaultEmptyPreviewText)
  {
    if HasValue(v) then OptionPreview(options, v, hasPreviewFn, maxPreviewCount)
    else Text(Placeholder(emptyPreviewText))
  }

  /**
   * A value that selects no listed option still shows its (empty) preview
   * rather than the placeholder: a multi value naming no option shows "".
   */
  lemma UnknownValueShowsEmptyPreview(options: seq<Item>, values: seq<string>, emptyPreviewText: Option<string>)
    requires values != [] && forall o | o in options :: o.value !in values
    ensures TriggerContent(options, Multi(values), false, DefaultMaxPreviewCount, emptyPreviewText) == Text("")
  {
  }

  /** The text the closed box shows when there is no value. */
  function Placeholder(emptyPreviewText: Option<string>): string
  {
    if emptyPreviewText.Some? then emptyPreviewText.value else DefaultEmptyPreviewText
  }

  /**
   * With one value and the default `emptyValue`, choosing the selected
   * option again leaves no value, and the closed box shows the placeholder.
   */
  lemma DeselectShowsPlaceholder(options: seq<Item>, option: Item, hasPreviewFn: bool, maxPreviewCount: int,
                                 emptyPreviewText: Option<string>)
    ensures var next := OnSelect(Single(Some(option.value)), option, DefaultEmptyValue).0;
      !HasValue(next) &&
      TriggerContent(options, next, hasPreviewFn, maxPreviewCount, emptyPreviewText) == Text(Placeholder(emptyPreviewText))
  {
  }

  /** With several values, choosing the only selected value again leaves none, and the box shows the placeholder. */
  lemma LastDeselectShowsPlaceholder(options: seq<Item>, option: Item, hasPreviewFn: bool, maxPreviewCount: int,
                                     emptyPreviewText: Option<string>)
    ensures var next := OnSelect(Multi([option.value]), option, DefaultEmptyValue).0;
      !HasValue(next) &&
      TriggerContent(options, next, hasPreviewFn, maxPreviewCount, emptyPreviewText) == Text(Placeholder(emptyPreviewText))
  {
    assert Filter([option.value], (w: string) => w != option.value) == [];
  }

  /** A value that selects a listed option shows the preview, never the placeholder text in its place. */
  lemma SelectionShowsPreview(options: seq<Item>, v: Value, o: Item, hasPreviewFn: bool, maxPreviewCount: int,
                              emptyPreviewText: Option<string>)
    requires o in options && IsSelected(v, o) && (v.Single? ==> o.value != "")
    ensures TriggerContent(options, v, hasPreviewFn, maxPreviewCount, emptyPreviewText)
      == OptionPreview(options, v, hasPreviewFn, maxPreviewCount)
  {
  }
}
