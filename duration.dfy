// The duration page's scroll-snap picker: three wheels of zero-padded
// values (hours 0..23, minutes 0..59, seconds 0..59) framed by a blank
// spacer at each end, the scroll handler that marks the child nearest the
// panel's vertical centre, and the export of the chosen duration (an active
// preset button wins over the wheels).

module DurationPicker {
  import opened Wrappers
  import opened Strings
  import Selection

  /** One child div of a wheel: its text and whether it carries 'selected'. */
  datatype Item = Item(text: string, selected: bool)

  /** The pixel height the page assumes for one wheel item. */
  const ItemHeight: int := 30

  const Spacer: Item := Item("", false)

  function LabelItem(i: nat, defaultVal: int): Item {
    Item(Label(i), i == defaultVal)
  }

  /** How many values 0..max the loop of populateWheel emits. */
  function ValueCount(max: int): nat {
    if max < 0 then 0 else max + 1
  }

  /** The labelled children for the values 0..count-1. */
  function LabelItems(count: nat, defaultVal: int): (r: seq<Item>)
    ensures |r| == count
    ensures forall i: nat :: i < count ==> r[i] == LabelItem(i, defaultVal)
  {
    seq(count, i requires 0 <= i < count => LabelItem(i, defaultVal))
  }

  /** The children populateWheel(max, defaultVal) leaves in the wheel: a
      blank spacer at each end and, in between, the label of each value
      0..max in ascending order, selected when it is defaultVal. */
  function WheelItems(max: int, defaultVal: int): (r: seq<Item>)
    ensures |r| == ValueCount(max) + 2 && r[0] == Spacer && r[|r| - 1] == Spacer
    ensures forall i: nat :: i < ValueCount(max) ==> r[i + 1] == LabelItem(i, defaultVal)
  {
    [Spacer] + LabelItems(ValueCount(max), defaultVal) + [Spacer]
  }

  /** The positions of the children that carry 'selected'. */
  function SelectedPositions(items: seq<Item>): set<nat> {
    set i: nat | i < |items| && items[i].selected
  }

  /** Every child is a blank spacer or a run of digits. */
  predicate WellFormedWheel(items: seq<Item>) {
    forall i :: 0 <= i < |items| ==> items[i].text == "" || AllDigits(items[i].text)
  }

  /** The shape populateWheel builds: max + 3 children when max >= 0, a
      blank at each end, and in between the labels of 0..max in ascending
      order. */
  lemma WheelShape(max: int, defaultVal: int)
    ensures var w := WheelItems(max, defaultVal);
      && |w| == ValueCount(max) + 2
      && (max >= 0 ==> |w| == max + 3)
      && w[0].text == "" && w[|w| - 1].text == ""
      && (forall i: nat :: i < ValueCount(max) ==> w[i + 1].text == Label(i))
      && WellFormedWheel(w)
  {
  }

  /** Each label parses back to the value it stands for. */
  lemma WheelLabelsParse(max: int, defaultVal: int)
    ensures var w := WheelItems(max, defaultVal);
      forall i: nat :: i < ValueCount(max) ==> ParseInt(w[i + 1].text) == Some(i)
  {
    var w := WheelItems(max, defaultVal);
    forall i: nat | i < ValueCount(max)
      ensures ParseInt(w[i + 1].text) == Some(i)
    {
      WheelShape(max, defaultVal);
      LabelParses(i);
    }
  }

  /** The initial selection is exactly the item of value defaultVal when it
      lies in 0..max and nothing otherwise; a spacer is never selected. */
  lemma WheelSelection(max: int, defaultVal: int)
    ensures var w := WheelItems(max, defaultVal);
      SelectedPositions(w) == if 0 <= defaultVal <= max then {defaultVal + 1} else {}
  {
    var w := WheelItems(max, defaultVal);
    var expected: set<nat> := if 0 <= defaultVal <= max then {defaultVal + 1} else {};
    forall i: nat | i < |w|
      ensures w[i].selected <==> i in expected
    {
      if 0 < i < |w| - 1 {
        assert w[i] == LabelItem(i - 1, defaultVal);
      }
    }
    assert SelectedPositions(w) == expected;
  }

  // ---------------------------------------------------------------------
  // A wheel panel
  // ---------------------------------------------------------------------

  /** The vertical position of a child, as the layout reports it. */
  datatype Box = Box(offsetTop: int, offsetHeight: int)

  function Abs(x: int): nat {
    if x < 0 then -x else x
  }

  /** Twice |itemCenter - center|, with itemCenter = offsetTop + offsetHeight / 2
      and center = scrollTop + clientHeight / 2; doubling keeps the
      comparison of the source exact on integers. */
  function Distance2(b: Box, scrollTop: int, clientHeight: int): nat {
    Abs(2 * b.offsetTop + b.offsetHeight - (2 * scrollTop + clientHeight))
  }

  function Distances(boxes: seq<Box>, scrollTop: int, clientHeight: int): (ds: seq<nat>)
    ensures |ds| == |boxes|
    ensures forall j :: 0 <= j < |boxes| ==> ds[j] == Distance2(boxes[j], scrollTop, clientHeight)
  {
    seq(|boxes|, j requires 0 <= j < |boxes| => Distance2(boxes[j], scrollTop, clientHeight))
  }

  /** k is the child the scroll handler picks: no child is nearer, and every
      earlier child is strictly farther (the first minimum wins a tie). */
  predicate IsFirstNearest(ds: seq<nat>, k: nat) {
    k < |ds|
    && (forall j :: 0 <= j < |ds| ==> ds[k] <= ds[j])
    && (forall j :: 0 <= j < k ==> ds[k] < ds[j])
  }

  /** There is only one such child. */
  lemma FirstNearestUnique(ds: seq<nat>, k1: nat, k2: nat)
    requires IsFirstNearest(ds, k1) && IsFirstNearest(ds, k2)
    ensures k1 == k2
  {
    assert ds[k1] <= ds[k2] && ds[k2] <= ds[k1];
  }

  /** The argmin loop of the scroll handler: closest starts at null and
      minDist at Infinity, and a child replaces them when strictly nearer. */
  method Nearest(ds: seq<nat>) returns (closest: Option<nat>)
    ensures closest.None? <==> ds == []
    ensures closest.Some? ==> IsFirstNearest(ds, closest.value)
  {
    closest := None;
    var minDist := 0;
    for j := 0 to |ds|
      invariant closest.None? <==> j == 0
      invariant closest.Some? ==> closest.value < j && minDist == ds[closest.value]
      invariant closest.Some? ==> forall i :: 0 <= i < j ==> minDist <= ds[i]
      invariant closest.Some? ==> forall i :: 0 <= i < closest.value ==> minDist < ds[i]
    {
      if closest.None? || ds[j] < minDist {
        minDist := ds[j];
        closest := Some(j);
      }
    }
  }

  /** A wheel element: its child divs and its scroll offset. */
  class Wheel {
    var items: seq<Item>
    var scrollTop: int

    constructor ()
      ensures items == [] && scrollTop == 0
    {
      items := [];
      scrollTop := 0;
    }

    /** populateWheel(id, max, defaultVal): clear, a top spacer, one labelled
        child per value 0..max (the default one selected), a bottom spacer,
        and the scroll offset that centres the default value. */
    method Populate(max: int, defaultVal: int)
      modifies this
      ensures items == WheelItems(max, defaultVal)
      ensures scrollTop == (defaultVal + 1) * ItemHeight
    {
      items := [];
      items := items + [Spacer];
      var i := 0;
      while i <= max
        invariant 0 <= i && i <= ValueCount(max)
        invariant items == [Spacer] + LabelItems(i, defaultVal)
      {
        items := items + [LabelItem(i, defaultVal)];
        i := i + 1;
      }
      assert i == ValueCount(max);
      items := items + [Spacer];
      scrollTop := (defaultVal + 1) * ItemHeight;
    }

    /** The scroll handler: every child loses 'selected', then the child
        nearest the panel centre (the first of equally near ones) gains it.
        What is selected afterwards depends only on the geometry, so running
        the handler again at the same position changes nothing. */
    method OnScroll(boxes: seq<Box>, clientHeight: int)
      requires |boxes| == |items|
      modifies this
      ensures scrollTop == old(scrollTop) && |items| == |old(items)|
      ensures forall j :: 0 <= j < |items| ==> items[j].text == old(items[j].text)
      ensures forall j :: 0 <= j < |items| ==>
                items[j].selected == IsFirstNearest(Distances(boxes, scrollTop, clientHeight), j)
      ensures |items| > 0 ==> exists k :: 0 <= k < |items| && items[k].selected
    {
      var ds := Distances(boxes, scrollTop, clientHeight);
      var closest := Nearest(ds);
      ghost var before := items;
      for j := 0 to |items|
        invariant |items| == |before| && scrollTop == old(scrollTop)
        invariant forall i :: 0 <= i < |items| ==> items[i].text == before[i].text
        invariant forall i :: 0 <= i < j ==> !items[i].selected
      {
        items := items[j := items[j].(selected := false)];
      }
      if closest.Some? {
        var k := closest.value;
        items := items[k := items[k].(selected := true)];
        forall j | 0 <= j < |items|
          ensures items[j].selected == IsFirstNearest(ds, j)
        {
          if IsFirstNearest(ds, j) {
            FirstNearestUnique(ds, j, k);
          }
        }
      }
    }
  }

  /** After the handler, exactly one child is selected when the wheel has
      any, and none otherwise. */
  lemma SnapSelectsOne(items: seq<Item>, ds: seq<nat>)
    requires |ds| == |items|
    requires forall j :: 0 <= j < |items| ==> items[j].selected == IsFirstNearest(ds, j)
    ensures |SelectedPositions(items)| == if items == [] then 0 else 1
  {
    if items != [] {
      FirstNearestExists(ds);
      var k: nat :| IsFirstNearest(ds, k);
      forall j: nat | j in SelectedPositions(items) ensures j == k {
        FirstNearestUnique(ds, j, k);
      }
      assert SelectedPositions(items) == {k};
    } else {
      assert SelectedPositions(items) == {};
    }
  }

  /** A non-empty list of distances has a first nearest position. */
  lemma {:induction false} FirstNearestExists(ds: seq<nat>)
    requires ds != []
    ensures exists k: nat :: IsFirstNearest(ds, k)
  {
    if |ds| > 1 {
      FirstNearestExists(ds[..|ds| - 1]);
      var k: nat :| IsFirstNearest(ds[..|ds| - 1], k);
      if ds[|ds| - 1] < ds[k] {
        assert IsFirstNearest(ds, |ds| - 1);
      } else {
        assert IsFirstNearest(ds, k);
      }
    } else {
      assert IsFirstNearest(ds, 0);
    }
  }

  // ---------------------------------------------------------------------
  // Duration export
  // ---------------------------------------------------------------------

  datatype Duration =
    | Preset(value: string, minutes: int)
    | Custom(hours: int, minutes: int, seconds: int, totalMinutes: int)

  /** Math.round(s / 60) for s >= 0. */
  function RoundMinutes(s: nat): (r: nat)
    ensures 60 * r - 30 <= s < 60 * r + 30
  {
    (s + 30) / 60
  }

  /** For a seconds value 0..59, rounding adds a minute exactly from 30 on. */
  lemma RoundMinutesOfSeconds(s: nat)
    requires s < 60
    ensures RoundMinutes(s) == if s >= 30 then 1 else 0
  {
  }

  /** document.querySelector('#wheel .selected')?.textContent || '00': the
      text of the first selected child, '00' when none is selected or the
      selected child is a blank spacer. */
  function SelectedText(items: seq<Item>): (t: string)
    ensures WellFormedWheel(items) ==> t != [] && AllDigits(t)
    ensures (forall i :: 0 <= i < |items| ==> !items[i].selected) ==> t == "00"
    ensures forall k :: 0 <= k < |items| && items[k].selected
                        && (forall j :: 0 <= j < k ==> !items[j].selected) ==>
              t == (if items[k].text == "" then "00" else items[k].text)
  {
    var flags := seq(|items|, i requires 0 <= i < |items| => items[i].selected);
    assert forall i :: 0 <= i < |items| ==> flags[i] == items[i].selected;
    match Selection.FirstActive(flags)
    case None => "00"
    case Some(k) => if items[k].text == "" then "00" else items[k].text
  }

  /** getSelectedDuration. presetLabels and presetActive describe the preset
      buttons in document order; the source throws when the active preset's
      text has no digit, so that is required here. */
  function SelectedDuration(presetLabels: seq<string>, presetActive: seq<bool>,
                            hours: seq<Item>, minutes: seq<Item>, seconds: seq<Item>): (d: Duration)
    requires |presetLabels| == |presetActive|
    requires Selection.FirstActive(presetActive).Some? ==>
               HasDigit(presetLabels[Selection.FirstActive(presetActive).value])
    requires WellFormedWheel(hours) && WellFormedWheel(minutes) && WellFormedWheel(seconds)
    ensures d.Preset? <==> exists k :: 0 <= k < |presetActive| && presetActive[k]
    ensures d.Preset? ==>
              var k := Selection.FirstActive(presetActive).value;
              d.value == Trim(presetLabels[k])
              && FirstDigitRun(presetLabels[k]).Some?
              && d.minutes == DigitsValue(FirstDigitRun(presetLabels[k]).value)
    ensures d.Custom? ==>
              && d.hours == DigitsValue(SelectedText(hours))
              && d.minutes == DigitsValue(SelectedText(minutes))
              && d.seconds == DigitsValue(SelectedText(seconds))
              && 0 <= d.hours && 0 <= d.minutes && 0 <= d.seconds
              && var total := 3600 * d.hours + 60 * d.minutes + d.seconds;
                 60 * d.totalMinutes - 30 <= total < 60 * d.totalMinutes + 30
  {
    match Selection.FirstActive(presetActive)
    case Some(k) =>
      var run := FirstDigitRun(presetLabels[k]);
      ParseAllDigits(run.value);
      Preset(Trim(presetLabels[k]), ParseInt(run.value).value)
    case None =>
      var h, m, s := SelectedText(hours), SelectedText(minutes), SelectedText(seconds);
      ParseAllDigits(h);
      ParseAllDigits(m);
      ParseAllDigits(s);
      var hv, mv, sv := ParseInt(h).value, ParseInt(m).value, ParseInt(s).value;
      Custom(hv, mv, sv, hv * 60 + mv + RoundMinutes(sv))
  }

  /** An active preset whose label is some digit-free text, a run of
      digits and then text not starting with a digit exports that label,
      trimmed, and the value of the run as its minutes. */
  lemma PresetReadsFirstNumber(presetLabels: seq<string>, presetActive: seq<bool>,
                               hours: seq<Item>, minutes: seq<Item>, seconds: seq<Item>,
                               k: nat, lead: string, digits: string, rest: string)
    requires |presetLabels| == |presetActive|
    requires WellFormedWheel(hours) && WellFormedWheel(minutes) && WellFormedWheel(seconds)
    requires Selection.FirstActive(presetActive) == Some(k)
    requires presetLabels[k] == lead + digits + rest
    requires forall i :: 0 <= i < |lead| ==> !IsDigit(lead[i])
    requires digits != [] && AllDigits(digits)
    requires rest == [] || !IsDigit(rest[0])
    ensures IsDigit(presetLabels[k][|lead|])
            && SelectedDuration(presetLabels, presetActive, hours, minutes, seconds)
               == Preset(Trim(presetLabels[k]), DigitsValue(digits))
  {
    var text, n := presetLabels[k], |lead|;
    assert text[n..] == digits + rest;
    FirstDigitRunAt(text, n);
    LeadingDigitsPrefix(digits, rest);
  }

  /** The "30 min" preset, when active, exports "30 min" and 30 minutes. */
  lemma ThirtyMinutePreset(presetLabels: seq<string>, presetActive: seq<bool>, text: string)
    requires text == "30 min" && presetLabels == [text] && presetActive == [true]
    ensures HasDigit(text)
            && SelectedDuration(presetLabels, presetActive, [], [], []) == Preset(text, 30)
  {
    ThirtyMinuteLabel(text);
    assert Selection.FirstActive(presetActive) == Some(0);
    PresetReadsFirstNumber(presetLabels, presetActive, [], [], [], 0, [], "30", " min");
    PresetValueUnpadded(SelectedDuration(presetLabels, presetActive, [], [], []), text, 30);
  }

  /** A preset whose text has no white space at either end exports that
      text unchanged. */
  lemma PresetValueUnpadded(d: Duration, text: string, minutes: int)
    requires d == Preset(Trim(text), minutes)
    requires text != [] && !IsWhitespace(text[0]) && !IsWhitespace(text[|text| - 1])
    ensures d == Preset(text, minutes)
  {
    TrimUnpadded(text);
  }

  /** The pieces of the label "30 min": the digits "30", worth 30, and then
      text that starts with a space; the label has no white space at either
      end. */
  lemma ThirtyMinuteLabel(text: string)
    requires text == "30 min"
    ensures text == [] + "30" + " min" && AllDigits("30") && !IsDigit(" min"[0])
    ensures DigitsValue("30") == 30
    ensures text != [] && !IsWhitespace(text[0]) && !IsWhitespace(text[|text| - 1])
  {
    assert "30"[0] == '3' && "30"[1] == '0';
    assert "30"[..1] == "3";
    assert "3"[..0] == [];
    assert text[0] == '3' && text[5] == 'n';
  }

  /** The wheel shows no value: no child is selected, or the first selected
      child is a blank spacer. */
  predicate ShowsNoValue(items: seq<Item>) {
    || (forall i :: 0 <= i < |items| ==> !items[i].selected)
    || exists k :: 0 <= k < |items| && items[k].selected && items[k].text == ""
                   && forall j :: 0 <= j < k ==> !items[j].selected
  }

  /** With no preset active and no wheel showing a value, every field reads
      as zero. */
  lemma NothingSelectedIsZero(presetLabels: seq<string>, presetActive: seq<bool>,
                              hours: seq<Item>, minutes: seq<Item>, seconds: seq<Item>)
    requires |presetLabels| == |presetActive|
    requires forall k :: 0 <= k < |presetActive| ==> !presetActive[k]
    requires WellFormedWheel(hours) && WellFormedWheel(minutes) && WellFormedWheel(seconds)
    requires ShowsNoValue(hours) && ShowsNoValue(minutes) && ShowsNoValue(seconds)
    ensures SelectedDuration(presetLabels, presetActive, hours, minutes, seconds) == Custom(0, 0, 0, 0)
  {
    NoValueReadsZero(hours);
    NoValueReadsZero(minutes);
    NoValueReadsZero(seconds);
    assert Selection.FirstActive(presetActive).None?;
    CustomOfWheels(hours, minutes, seconds, 0, 0, 0);
    assert SelectedDuration(presetLabels, presetActive, hours, minutes, seconds)
           == SelectedDuration([], [], hours, minutes, seconds);
  }

  /** A wheel that shows no value exports the text "00", which stands for 0. */
  lemma NoValueReadsZero(items: seq<Item>)
    requires ShowsNoValue(items)
    ensures SelectedText(items) == "00" && AllDigits("00") && DigitsValue("00") == 0
  {
    assert "00"[..1] == "0";
  }

  /** After the scroll handler, the wheel exports the text of the first
      nearest child, or "00" when that child is a blank spacer. */
  lemma SelectedTextAfterSnap(items: seq<Item>, ds: seq<nat>, k: nat)
    requires |ds| == |items|
    requires forall j :: 0 <= j < |items| ==> items[j].selected == IsFirstNearest(ds, j)
    requires IsFirstNearest(ds, k)
    ensures SelectedText(items) == if items[k].text == "" then "00" else items[k].text
  {
    forall j | 0 <= j < k
      ensures !items[j].selected
    {
      if IsFirstNearest(ds, j) {
        FirstNearestUnique(ds, j, k);
      }
    }
  }

  /** Wheels freshly populated with defaults h, m and s, within their
      ranges, with no preset active, export h hours, m minutes and s
      seconds, which round to 60 * h + m minutes plus the rounded seconds. */
  lemma PopulatedWheelsDuration(hMax: nat, h: nat, mMax: nat, m: nat, sMax: nat, s: nat)
    requires h <= hMax && m <= mMax && s <= sMax
    ensures WellFormedWheel(WheelItems(hMax, h)) && WellFormedWheel(WheelItems(mMax, m))
            && WellFormedWheel(WheelItems(sMax, s))
    ensures SelectedDuration([], [], WheelItems(hMax, h), WheelItems(mMax, m), WheelItems(sMax, s))
            == Custom(h, m, s, 60 * h + m + RoundMinutes(s))
  {
    WheelValue(hMax, h);
    WheelValue(mMax, m);
    WheelValue(sMax, s);
    CustomOfWheels(WheelItems(hMax, h), WheelItems(mMax, m), WheelItems(sMax, s), h, m, s);
  }

  /** With no preset, wheels whose exported texts stand for h, m and s
      export h hours, m minutes and s seconds. */
  lemma CustomOfWheels(hours: seq<Item>, minutes: seq<Item>, seconds: seq<Item>, h: nat, m: nat, s: nat)
    requires WellFormedWheel(hours) && WellFormedWheel(minutes) && WellFormedWheel(seconds)
    requires DigitsValue(SelectedText(hours)) == h && DigitsValue(SelectedText(minutes)) == m
             && DigitsValue(SelectedText(seconds)) == s
    ensures SelectedDuration([], [], hours, minutes, seconds) == Custom(h, m, s, 60 * h + m + RoundMinutes(s))
  {
  }

  /** A freshly populated wheel is well formed and its exported text
      stands for its default value. */
  lemma WheelValue(max: nat, defaultVal: nat)
    requires defaultVal <= max
    ensures WellFormedWheel(WheelItems(max, defaultVal))
    ensures DigitsValue(SelectedText(WheelItems(max, defaultVal))) == defaultVal
  {
    WheelShape(max, defaultVal);
    SelectedTextOfWheel(max, defaultVal);
    LabelValue(defaultVal);
  }

  /** A freshly populated wheel exports the label of its default value. */
  lemma SelectedTextOfWheel(max: int, defaultVal: int)
    requires 0 <= defaultVal <= max
    ensures SelectedText(WheelItems(max, defaultVal)) == Label(defaultVal)
  {
    var w := WheelItems(max, defaultVal);
    var flags := seq(|w|, i requires 0 <= i < |w| => w[i].selected);
    Selection.ClickedIsFound(flags, defaultVal + 1);
  }
}
