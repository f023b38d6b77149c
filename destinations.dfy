// The preferences page's destination list: adding a trimmed destination as
// the numbered item "n. name", removing an item and renumbering the rest,
// and reading the names back out before moving on to the route page.
// The page reads names back with label.split('. ')[1], the text between the
// first and the second ". " of the label, so a name that itself contains
// ". " loses everything from that point on (see README, Findings). The list
// here reads a name as everything after the first ". ", which gives every
// name back whole; the source's reading is modelled at the end of the
// module, with the input that shows the difference.

module Destinations {
  import opened Wrappers
  import opened Strings

  /** ". " occurs at position i of s. */
  predicate SepAt(s: string, i: nat) {
    i + 1 < |s| && s[i] == '.' && s[i + 1] == ' '
  }

  predicate HasSep(s: string) {
    exists i: nat :: i < |s| && SepAt(s, i)
  }

  /** The position of the first ". " in s. */
  function FirstSep(s: string): (r: Option<nat>)
    ensures r.None? <==> !HasSep(s)
    ensures r.Some? ==> SepAt(s, r.value) && forall i: nat :: i < r.value ==> !SepAt(s, i)
  {
    if |s| < 2 then None
    else if s[0] == '.' && s[1] == ' ' then assert SepAt(s, 0); Some(0)
    else match FirstSep(s[1..])
      case None =>
        assert forall i: nat :: SepAt(s, i) ==> i == 0 || SepAt(s[1..], i - 1);
        None
      case Some(j) =>
        assert forall i: nat :: 0 < i <= j ==> (SepAt(s, i) <==> SepAt(s[1..], i - 1));
        assert SepAt(s, j + 1);
        Some(j + 1)
  }

  /** The label an item gets: `${index}. ${value}`. It starts with the
      decimal index and ". " and ends with the whole name. */
  function IndexLabel(index: nat, name: string): (r: string)
    ensures NumberedAs(r, index)
    ensures |r| == |Decimal(index)| + 2 + |name| && r[|r| - |name|..] == name
  {
    var r := Decimal(index) + ". " + name;
    assert r == (Decimal(index) + ". ") + name;
    r
  }

  /** The first ". " of a label is the one written after its number. */
  lemma FirstSepOfLabel(index: nat, name: string)
    ensures FirstSep(IndexLabel(index, name)) == Some(|Decimal(index)|)
  {
    var d := Decimal(index);
    var s := IndexLabel(index, name);
    assert SepAt(s, |d|);
    forall i: nat | i < |d| ensures !SepAt(s, i) {
      assert s[i] == d[i];
    }
  }

  /** The number of every label reads back: parseInt(label) is its index. */
  lemma LabelNumberParses(index: nat, name: string)
    ensures ParseInt(IndexLabel(index, name)) == Some(index)
  {
    var d, t := Decimal(index), ". " + name;
    assert t[0] == '.';
    assert IndexLabel(index, name) == d + t;
    DecimalValue(index);
    ParseDigitsThen(d, t);
  }

  /** The label starts with the number n and the ". " written after it. */
  predicate NumberedAs(text: string, n: nat) {
    Decimal(n) + ". " <= text
  }

  /** Every label starts with its position, counted from 1, and ". ". */
  predicate Numbered(labels: seq<string>) {
    forall i :: 0 <= i < |labels| ==> NumberedAs(labels[i], i + 1)
  }

  /** A label numbered n reads back as n under parseInt and carries the
      ". " that split('. ') looks for. */
  lemma NumberedAsParses(text: string, n: nat)
    requires NumberedAs(text, n)
    ensures ParseInt(text) == Some(n) && HasSep(text)
  {
    var d := Decimal(n);
    var t := text[|d|..];
    assert text == d + t;
    assert t[0] == '.';
    DecimalValue(n);
    ParseDigitsThen(d, t);
    assert SepAt(text, |d|);
  }

  /** In a numbered list parseInt(label) is the item's position. */
  lemma NumberedParses(labels: seq<string>)
    requires Numbered(labels)
    ensures forall i :: 0 <= i < |labels| ==> ParseInt(labels[i]) == Some(i + 1) && HasSep(labels[i])
  {
    forall i | 0 <= i < |labels|
      ensures ParseInt(labels[i]) == Some(i + 1) && HasSep(labels[i])
    {
      NumberedAsParses(labels[i], i + 1);
    }
  }

  /** A label numbered after the last one keeps the list numbered. */
  lemma NumberedAppend(labels: seq<string>, name: string)
    requires Numbered(labels)
    ensures Numbered(labels + [IndexLabel(|labels| + 1, name)])
  {
    var labels' := labels + [IndexLabel(|labels| + 1, name)];
    forall i | 0 <= i < |labels'|
      ensures NumberedAs(labels'[i], i + 1)
    {
      if i < |labels| {
        assert labels'[i] == labels[i];
      }
    }
  }

  /** The intended reading of a label's name: everything after its first
      ". ", i.e. label.slice(label.indexOf('. ') + 2). */
  function LabelName(text: string): (name: string)
    requires HasSep(text)
    ensures |name| + 2 <= |text| && SepAt(text, |text| - |name| - 2)
    ensures text[|text| - |name|..] == name
    ensures forall i: nat :: i + |name| + 2 < |text| ==> !SepAt(text, i)
  {
    text[FirstSep(text).value + 2..]
  }

  /** Every name comes back whole, whatever it contains. */
  lemma LabelNameRoundTrip(index: nat, name: string)
    ensures HasSep(IndexLabel(index, name))
    ensures LabelName(IndexLabel(index, name)) == name
  {
    FirstSepOfLabel(index, name);
    assert IndexLabel(index, name)[|Decimal(index)| + 2..] == name;
  }

  /** Every label carries a ". ". */
  predicate Separated(labels: seq<string>) {
    forall i :: 0 <= i < |labels| ==> HasSep(labels[i])
  }

  /** updateIndices, reading each name back whole: item i is relabelled
      as i + 1, ". " and its name. */
  function Renumbered(labels: seq<string>): (r: seq<string>)
    requires Separated(labels)
    ensures |r| == |labels|
    ensures forall i :: 0 <= i < |r| ==> r[i] == IndexLabel(i + 1, LabelName(labels[i]))
  {
    seq(|labels|, i requires 0 <= i < |labels| => IndexLabel(i + 1, LabelName(labels[i])))
  }

  /** After renumbering, the labels are numbered 1, 2, ... in list order
      and every item keeps its name. */
  lemma RenumberedKeepsNames(labels: seq<string>)
    requires Separated(labels)
    ensures Numbered(Renumbered(labels)) && Separated(Renumbered(labels))
    ensures forall i :: 0 <= i < |labels| ==> LabelName(Renumbered(labels)[i]) == LabelName(labels[i])
  {
    var r := Renumbered(labels);
    forall i | 0 <= i < |labels|
      ensures NumberedAs(r[i], i + 1) && HasSep(r[i]) && LabelName(r[i]) == LabelName(labels[i])
    {
      LabelNameRoundTrip(i + 1, LabelName(labels[i]));
    }
  }

  /** Renumbering an already renumbered list changes nothing. */
  lemma RenumberedIdempotent(labels: seq<string>)
    requires Separated(labels)
    ensures Separated(Renumbered(labels)) && Renumbered(Renumbered(labels)) == Renumbered(labels)
  {
    RenumberedKeepsNames(labels);
    var r := Renumbered(labels);
    forall i | 0 <= i < |labels| ensures Renumbered(r)[i] == r[i] {
      assert LabelName(r[i]) == LabelName(labels[i]);
    }
  }

  /** A numbered list has a ". " in every label. */
  lemma NumberedSeparated(labels: seq<string>)
    requires Numbered(labels)
    ensures Separated(labels)
  {
    NumberedParses(labels);
  }

  /** Removing an item keeps a ". " in every remaining label. */
  lemma SeparatedRemove(labels: seq<string>, k: nat)
    requires Separated(labels) && k < |labels|
    ensures Separated(labels[..k] + labels[k + 1..])
  {
    var rest := labels[..k] + labels[k + 1..];
    forall i | 0 <= i < |rest| ensures HasSep(rest[i]) {
      if i < k {
        assert rest[i] == labels[i];
      } else {
        assert rest[i] == labels[i + 1];
      }
    }
  }

  const EmptyListNotice := "Please add at least one destination"
  const StopsKey := "tourStops"
  const RoutePage := "/dijkstra"

  datatype TourStart =
    | Notice(message: string)
    | Navigate(storageKey: string, stops: seq<string>, url: string)

  /** The names read from '#stopList li span' before navigating. */
  function Names(labels: seq<string>): (names: seq<string>)
    requires Separated(labels)
    ensures |names| == |labels|
    ensures forall i :: 0 <= i < |labels| ==> names[i] == LabelName(labels[i])
  {
    seq(|labels|, i requires 0 <= i < |labels| => LabelName(labels[i]))
  }

  /** The Start Tour handler: an empty list shows a notice and stays; a
      non-empty one stores the names under 'tourStops' and goes to /dijkstra.
      The names stored are the names added, in list order. */
  function StartTour(labels: seq<string>): (r: TourStart)
    requires Separated(labels)
    ensures r.Notice? <==> labels == []
    ensures r.Notice? ==> r.message == EmptyListNotice
    ensures r.Navigate? ==> r.storageKey == StopsKey && r.url == RoutePage
                            && |r.stops| == |labels| > 0
                            && forall i :: 0 <= i < |labels| ==> r.stops[i] == LabelName(labels[i])
  {
    var stops := Names(labels);
    if |stops| == 0 then Notice(EmptyListNotice) else Navigate(StopsKey, stops, RoutePage)
  }

  /** Every name added comes back out, in order, when the tour starts. */
  lemma StartTourReturnsNames(names: seq<string>)
    requires |names| > 0
    ensures var labels := seq(|names|, i requires 0 <= i < |names| => IndexLabel(i + 1, names[i]));
      Separated(labels) && StartTour(labels) == Navigate(StopsKey, names, RoutePage)
  {
    var labels := seq(|names|, i requires 0 <= i < |names| => IndexLabel(i + 1, names[i]));
    forall i | 0 <= i < |names| ensures HasSep(labels[i]) && LabelName(labels[i]) == names[i] {
      LabelNameRoundTrip(i + 1, names[i]);
    }
    assert Names(labels) == names;
  }

  /** The destination input and the list of item labels. */
  class StopList {
    var labels: seq<string>
    var input: string

    constructor ()
      ensures labels == [] && input == "" && Numbered(labels)
    {
      labels, input := [], "";
    }

    /** addDestination: input that trims to nothing changes nothing; any
        other input is appended, trimmed, as item |labels| + 1, and the input
        box is cleared. */
    method AddDestination()
      requires Numbered(labels)
      modifies this
      ensures Numbered(labels)
      ensures Trim(old(input)) == "" ==> labels == old(labels) && input == old(input)
      ensures Trim(old(input)) != "" ==>
                labels == old(labels) + [IndexLabel(|old(labels)| + 1, Trim(old(input)))] && input == ""
    {
      var value := Trim(input);
      if value != "" {
        var index := |labels| + 1;
        NumberedAppend(labels, value);
        labels := labels + [IndexLabel(index, value)];
        input := "";
      }
    }

    /** updateIndices: each item's label is rewritten in place as its
        position, ". ", and the name read out of its old label. */
    method UpdateIndices()
      requires Separated(labels)
      modifies this
      ensures labels == Renumbered(old(labels)) && input == old(input)
      ensures Numbered(labels)
    {
      ghost var before := labels;
      for i := 0 to |labels|
        invariant |labels| == |before| && input == old(input)
        invariant forall j :: 0 <= j < i ==> labels[j] == IndexLabel(j + 1, LabelName(before[j]))
        invariant forall j :: i <= j < |labels| ==> labels[j] == before[j]
      {
        var name := LabelName(labels[i]);
        labels := labels[i := IndexLabel(i + 1, name)];
      }
      RenumberedKeepsNames(before);
    }

    /** The trash icon of item k: the item is removed, then the rest are
        renumbered. */
    method Remove(k: nat)
      requires Numbered(labels) && k < |labels|
      modifies this
      ensures Separated(old(labels)[..k] + old(labels)[k + 1..])
      ensures labels == Renumbered(old(labels)[..k] + old(labels)[k + 1..])
      ensures input == old(input) && Numbered(labels)
    {
      NumberedSeparated(labels);
      SeparatedRemove(labels, k);
      labels := labels[..k] + labels[k + 1..];
      UpdateIndices();
    }
  }

  /** Adding two destinations and removing the first leaves the second,
      renumbered as item 1 (for instance "Cape Town" and "Stellenbosch"
      leave "1. Stellenbosch"). */
  lemma RemoveFirstOfTwo(first: string, second: string)
    ensures var labels := [IndexLabel(1, first), IndexLabel(2, second)];
      Separated(labels[..0] + labels[1..]) && Renumbered(labels[..0] + labels[1..]) == [IndexLabel(1, second)]
  {
    var labels := [IndexLabel(1, first), IndexLabel(2, second)];
    assert labels[..0] + labels[1..] == [IndexLabel(2, second)];
    LabelNameRoundTrip(2, second);
  }

  // ---------------------------------------------------------------------
  // The source's reading of names, label.split('. ')[1]
  // ---------------------------------------------------------------------

  /** label.split('. ')[1] as a string: the text between the first and the
      second ". ", or to the end when there is no second one; a label with
      no ". " gives undefined, which a template literal prints as
      "undefined". */
  function SplitName(text: string): (name: string)
    ensures !HasSep(name)
  {
    match FirstSep(text)
    case None => "undefined"
    case Some(i) =>
      var rest := text[i + 2..];
      match FirstSep(rest)
      case None => rest
      case Some(j) =>
        assert forall k: nat :: SepAt(rest[..j], k) ==> SepAt(rest, k);
        rest[..j]
  }

  /** A name survives being written into a label and split out again exactly
      when it contains no ". "; otherwise only the text before its first
      ". " comes back. */
  lemma SplitNameOfLabel(index: nat, name: string)
    ensures SplitName(IndexLabel(index, name)) ==
              match FirstSep(name) case None => name case Some(j) => name[..j]
    ensures SplitName(IndexLabel(index, name)) == name <==> !HasSep(name)
  {
    var d := Decimal(index);
    FirstSepOfLabel(index, name);
    assert IndexLabel(index, name)[|d| + 2..] == name;
  }

  /** updateIndices as written, with the split('. ')[1] reading. */
  function RenumberedAsWritten(labels: seq<string>): (r: seq<string>)
    ensures |r| == |labels|
    ensures forall i :: 0 <= i < |r| ==> r[i] == IndexLabel(i + 1, SplitName(labels[i]))
  {
    seq(|labels|, i requires 0 <= i < |labels| => IndexLabel(i + 1, SplitName(labels[i])))
  }

  /** A name made of a part without ". ", then ". " and more text, comes
      back as that first part alone. */
  lemma SplitNameCutsAtSep(index: nat, a: string, b: string)
    requires !HasSep(a)
    ensures SplitName(IndexLabel(index, a + ". " + b)) == a
  {
    var name := a + ". " + b;
    assert SepAt(name, |a|);
    forall i: nat | i < |a| ensures !SepAt(name, i) {
      if i + 1 < |a| {
        assert !SepAt(a, i);
      }
    }
    assert FirstSep(name) == Some(|a|);
    SplitNameOfLabel(index, name);
    assert name[..|a|] == a;
  }

  /** A destination with ". " in its name is stored and shown cut short:
      "St. Helena Bay" comes back as "St", where the intended reading gives
      it back whole. */
  lemma SplitNameTruncates()
    ensures SplitName(IndexLabel(1, "St" + ". " + "Helena Bay")) == "St"
    ensures LabelName(IndexLabel(1, "St" + ". " + "Helena Bay")) == "St" + ". " + "Helena Bay"
  {
    assert !SepAt("St", 0);
    SplitNameCutsAtSep(1, "St", "Helena Bay");
    LabelNameRoundTrip(1, "St" + ". " + "Helena Bay");
  }

  /** Renumbering as written turns "1. St. Helena Bay" into "1. St"; the
      intended renumbering leaves it as it is. */
  lemma RenumberingTruncates()
    ensures var text := IndexLabel(1, "St" + ". " + "Helena Bay");
      && RenumberedAsWritten([text]) == [IndexLabel(1, "St")]
      && Separated([text]) && Renumbered([text]) == [text]
  {
    SplitNameTruncates();
  }

  /** On names without ". " the source's reading and the intended one agree. */
  lemma ReadingsAgreeWithoutSep(index: nat, name: string)
    requires !HasSep(name)
    ensures HasSep(IndexLabel(index, name))
    ensures SplitName(IndexLabel(index, name)) == LabelName(IndexLabel(index, name)) == name
  {
    SplitNameOfLabel(index, name);
    LabelNameRoundTrip(index, name);
  }
}
