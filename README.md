# GuideHamma route planner: a verified model of its core

GuideHamma is a tour planner. Its pages let a visitor choose a kind of
journey, a duration and a list of destinations. A Python script then finds
shortest routes over a road graph built from GeoJSON points and road
polylines. This project models the parts of that code that make decisions,
in Dafny, and proves what they promise.

- **strings.dfy** (`Strings`) covers the JavaScript text built-ins the
  pages rely on: `String(n)`, `padStart(2, '0')`, `trim`, `parseInt` on
  decimal text, and the first match of `/\d+/`.
- **selection.dfy** (`Selection`) covers the state machines the page
  scripts repeat:
  - groups in which a click leaves exactly one element `active` (navigation
    items, duration presets);
  - the classic/custom pair of the tour-plan page;
  - the per-card `loading` guard against double clicks;
  - the notification texts for journey options and navigation items, both
    the `switch` form and the lookup-object form;
  - the keyboard handler: Enter/Space click; ArrowUp/ArrowDown move focus
    cyclically.
- **duration.dfy** (`DurationPicker`) covers the duration page's picker:
  - `populateWheel` as a `Wheel` class;
  - the scroll-snap handler, with an argmin loop whose ties go to the
    first child;
  - `getSelectedDuration`, in which an active preset wins over the wheels.
- **destinations.dfy** (`Destinations`) covers the preferences page's
  destination list: `addDestination`, removal followed by `updateIndices`,
  and the Start Tour handler. It is a `StopList` class over the item
  labels.
- **roadgraph.dfy** (`RoadGraph`) covers `find_closest_point_index` and
  `build_graph` of `data/dijkstra.py`. Distances are a parameter `dist`.
- **dijkstra.dfy** (`ShortestPath`) covers `dijkstra` and the checks
  `main` performs before searching.
- **wrappers.dfy** (`Wrappers`) holds the `Option` type the other modules
  share.

The imperative parts of the source stay imperative:
- `populateWheel` and the scroll handler's loops;
- the label rewriting of `updateIndices`;
- the class toggling;
- `build_graph`'s loops;
- the search loop of `dijkstra`.

Each imperative method is proved against a specification function, and the
lemmas about that function carry the properties. The pure parts are
functions and lemmas:
- `getSelectedDuration`;
- the message switches;
- the index arithmetic;
- the extraction of stops.

The page's `split('. ')[1]` loses the end of any name that contains ". ".
The destination list therefore uses the evidently intended reading: the
text after the first ". ". The source's reading is modelled beside it; see
Findings.

## Model

| member | source | states |
|---|---|---|
| Strings.Label | other/static/js/durationPage.js:18 | a wheel label is all digits, at least two long, and exactly two long below 100 |
| Strings.Decimal | other/static/js/prefrencesPage.js:48 | String(n) is a non-empty run of digits, one digit long exactly when n < 10, with no leading zero unless n is 0 |
| Strings.PadStart2 | other/static/js/durationPage.js:18 | padStart(2, '0') leaves text of two or more characters alone and fills shorter text on the left with '0' up to two characters |
| Strings.LabelParses | other/static/js/durationPage.js:78-80 | parseInt of the label of n gives n back |
| Strings.DecimalValue | other/static/js/prefrencesPage.js:47-48 | the decimal digits written for an index read back as that index |
| Strings.Trim | other/static/js/prefrencesPage.js:44 | trim gives the slice of the text between its leading and its trailing white space: all that is cut off is white space, and the result neither starts nor ends with white space |
| Strings.TrimUnpadded | other/static/js/durationPage.js:66 | text with no white space at either end is its own trim |
| Strings.FirstDigitRun | other/static/js/durationPage.js:67 | match(/\d+/) finds nothing exactly when the text has no digit; otherwise it finds a non-empty run of digits |
| Strings.FirstDigitRunAt | other/static/js/durationPage.js:67 | when the first digit of the text is at position p, match(/\d+/) finds the longest run of digits starting at p |
| Strings.ParseInt | other/static/js/durationPage.js:67-81 | parseInt gives a number exactly when the text, after its leading white space and at most one sign, starts with a digit |
| Strings.ParseAllDigits | other/static/js/durationPage.js:78-80 | parseInt of a non-empty run of digits is the value of those digits |
| Strings.ParseDigitsThen | other/static/js/durationPage.js:67 | parseInt reads the leading digits and stops at the first character that is not a digit |
| Selection.ExclusiveGroup.Click | other/static/js/durationPage.js:2-7 | after a click on element k, element k is the only active one |
| Selection.FirstActive | other/static/js/durationPage.js:62 | querySelector('.active') finds nothing exactly when no element is flagged; otherwise it finds the first flagged element |
| Selection.ClickedIsFound | other/static/js/durationPage.js:62-63 | after a click on k, the query for the active element finds k |
| Selection.HandleNavClick | other/static/js/tourTypePage.js:91-103 | the clicked item becomes the only active one, and the notification shown is the one for its data-nav |
| Selection.JourneyMessage | other/static/js/tourTypePage.js:64-76 | 'classic' gives the classic message and 'limited' the limited one, each for that key only; any other option gives 'Unknown option selected' |
| Selection.Property | other/static/js/prefrencesPage.js:111-118 | a property read on an object literal finds the text of an own key, an inherited Object.prototype member for the names it carries, and nothing for any other key |
| Selection.NavMessage | other/static/js/tourPlanPage.js:113-127 | a notification is shown exactly for home, search and settings, each with its own message; anything else is only logged |
| Selection.LookupJourneyMessage | other/static/js/prefrencesPage.js:111-118 | `messages[option] \|\| messages.default` yields a member inherited from Object.prototype exactly for the names it carries; otherwise the classic message exactly for 'classic', the limited one exactly for 'limited', and the default message for every other key |
| Selection.LookupNavMessage | other/static/js/prefrencesPage.js:129-136 | something is found exactly for home, search, settings and the inherited Object.prototype names; home, search and settings give their own messages, the inherited names give a member instead of text |
| Selection.LookupsAgreeWithSwitches | other/static/js/prefrencesPage.js:111-136 | the lookup objects of the preferences page choose the same notification as the switches of the other pages exactly for the keys that are not names inherited from Object.prototype |
| Selection.OptionCard.Click | other/static/js/tourTypePage.js:33-50 | a click on a loading card schedules nothing; otherwise the card becomes loading with exactly one delayed step due |
| Selection.OptionCard.TimerFires | other/static/js/tourTypePage.js:46-49 | the delayed step shows the journey message of the card's option and clears loading; the guard invariant holds throughout |
| Selection.PlanChoice.ClickClassic | other/static/js/tourPlanPage.js:4-7 | classic is active and custom is not, whatever the state before |
| Selection.PlanChoice.ClickCustom | other/static/js/tourPlanPage.js:9-12 | custom is active and classic is not, whatever the state before |
| Selection.NextIndex | other/static/js/tourTypePage.js:148-149 | ArrowDown stays among the cards and wraps from the last to the first |
| Selection.PrevIndex | other/static/js/tourTypePage.js:151 | ArrowUp stays among the cards, and ArrowDown from its result comes back |
| Selection.PrevUndoesNext | other/static/js/tourTypePage.js:147-152 | ArrowUp undoes ArrowDown |
| Selection.DownPressesCycle | other/static/js/tourTypePage.js:148-149 | k presses of ArrowDown from card i land on (i + k) mod n |
| Selection.HandleKey | other/static/js/durationPage.js:232-269 | Enter/Space click exactly when an option card or nav item is focused, or the Next button on the duration page; the arrows move focus exactly when a card is focused, and always to a card |
| DurationPicker.LabelItems | other/static/js/durationPage.js:16-21 | one labelled child per value, in ascending order, flagged when it is the default |
| DurationPicker.WheelItems | other/static/js/durationPage.js:9-26 | a blank spacer at each end and, between them, the label of each value 0..max in ascending order, flagged when it is the default |
| DurationPicker.WheelShape | other/static/js/durationPage.js:9-26 | max + 3 children: a blank at each end and the labels of 0..max in order between them |
| DurationPicker.WheelLabelsParse | other/static/js/durationPage.js:16-21 | the label at position i + 1 parses back to i |
| DurationPicker.WheelSelection | other/static/js/durationPage.js:16-21 | exactly the child of value defaultVal is selected when 0 <= defaultVal <= max; otherwise none is; a spacer never is |
| DurationPicker.Wheel.Populate | other/static/js/durationPage.js:9-26 | the wheel holds the children described by WheelItems, and scrollTop is (defaultVal + 1) * 30 |
| DurationPicker.Distances | other/static/js/durationPage.js:34-38 | twice each child's distance from the panel centre, in child order |
| DurationPicker.Nearest | other/static/js/durationPage.js:32-43 | the loop finds nothing only for no children; otherwise it finds a nearest child, before which every child is strictly farther |
| DurationPicker.FirstNearestUnique | other/static/js/durationPage.js:39 | with strict comparison, at most one child is the first nearest |
| DurationPicker.FirstNearestExists | other/static/js/durationPage.js:36-43 | any non-empty wheel has a first nearest child |
| DurationPicker.Wheel.OnScroll | other/static/js/durationPage.js:30-47 | afterwards a child is selected exactly when it is the first nearest; texts and scroll offset are unchanged |
| DurationPicker.SnapSelectsOne | other/static/js/durationPage.js:45-46 | after the handler, exactly one child is selected when there are any, and none otherwise |
| DurationPicker.RoundMinutes | other/static/js/durationPage.js:81 | Math.round(s / 60) is the whole number of minutes nearest s seconds, halves rounding up |
| DurationPicker.RoundMinutesOfSeconds | other/static/js/durationPage.js:81 | for 0..59 seconds, rounding adds a minute exactly from 30 on |
| DurationPicker.SelectedText | other/static/js/durationPage.js:72-74 | the text of the first selected child; '00' when no child is selected or that child is a blank spacer; a non-empty run of digits on a well-formed wheel |
| DurationPicker.SelectedDuration | other/static/js/durationPage.js:60-83 | it is a preset exactly when a preset button is active, with the trimmed text and the first run of digits as minutes; otherwise it is a custom duration from the three wheel texts, whose total minutes are within half a minute of its length |
| DurationPicker.PresetReadsFirstNumber | other/static/js/durationPage.js:62-68 | an active preset whose text is digit-free text, a run of digits and then a non-digit exports its trimmed text and the value of that run as its minutes |
| DurationPicker.ThirtyMinutePreset | other/static/js/durationPage.js:62-68 | the active "30 min" preset exports the value "30 min" and 30 minutes |
| DurationPicker.PresetValueUnpadded | other/static/js/durationPage.js:66 | proof step: a preset value equal to the trimmed text is the text itself when the text has no white space at either end |
| DurationPicker.NothingSelectedIsZero | other/static/js/durationPage.js:72-81 | with no preset active and, on every well-formed wheel, no child selected or a blank spacer selected first, every field is 0 |
| DurationPicker.SelectedTextAfterSnap | other/static/js/durationPage.js:30-47 | after the scroll handler, the wheel exports the first nearest child's text, or '00' when it is a spacer |
| DurationPicker.SelectedTextOfWheel | other/static/js/durationPage.js:16-21 | a freshly populated wheel exports the label of its default value |
| DurationPicker.PopulatedWheelsDuration | other/static/js/durationPage.js:51-53 | wheels populated with in-range defaults h, m and s export h, m and s, and 60h + m + round(s / 60) total minutes |
| DurationPicker.WheelValue | other/static/js/durationPage.js:16-21 | a wheel populated with an in-range default is well formed and the text it exports stands for that default |
| Destinations.FirstSep | other/static/js/prefrencesPage.js:62 | the position of the first ". ", or nothing exactly when there is none |
| Destinations.FirstSepOfLabel | other/static/js/prefrencesPage.js:48 | the first ". " of a written label is the one after its number |
| Destinations.LabelNumberParses | other/static/js/prefrencesPage.js:48 | parseInt of a written label is its index |
| Destinations.IndexLabel | other/static/js/prefrencesPage.js:47-48 | a written label starts with its index and ". " and ends with the whole name |
| Destinations.NumberedAsParses | other/static/js/prefrencesPage.js:47-48 | a label that starts with n and ". " parses to n and has a ". " |
| Destinations.NumberedParses | other/static/js/prefrencesPage.js:59-65 | in a numbered list, every label parses to its position plus one |
| Destinations.NumberedAppend | other/static/js/prefrencesPage.js:46-49 | appending the label numbered after the last keeps the list numbered |
| Destinations.LabelNameRoundTrip | other/static/js/prefrencesPage.js:62-63 | writing a name into a label and reading it back gives that name, whatever it contains |
| Destinations.LabelName | other/static/js/prefrencesPage.js:62 | the intended reading of a name is what follows the first ". ": the label ends with ". " and the name, and no ". " starts earlier |
| Destinations.Renumbered | other/static/js/prefrencesPage.js:59-65 | item i is relabelled i + 1 with its name |
| Destinations.RenumberedKeepsNames | other/static/js/prefrencesPage.js:59-65 | after renumbering, the labels are numbered 1, 2, ... in order and each item keeps its name |
| Destinations.RenumberedIdempotent | other/static/js/prefrencesPage.js:59-65 | renumbering twice is renumbering once |
| Destinations.NumberedSeparated | other/static/js/prefrencesPage.js:47-48 | every label of a numbered list has a ". " |
| Destinations.SeparatedRemove | other/static/js/prefrencesPage.js:52-55 | removing an item keeps a ". " in every other label |
| Destinations.Names | other/static/js/prefrencesPage.js:73-74 | the stops are the item names, one per item, in list order |
| Destinations.StartTour | other/static/js/prefrencesPage.js:67-88 | an empty list gives the notice and nothing else; a non-empty one stores the names under 'tourStops' and goes to /dijkstra |
| Destinations.StartTourReturnsNames | other/static/js/prefrencesPage.js:73-85 | the names stored are exactly the names added, in order |
| Destinations.StopList.AddDestination | other/static/js/prefrencesPage.js:43-57 | input that trims to nothing changes nothing; otherwise the trimmed value is appended as item n + 1, the input is cleared and the list stays numbered |
| Destinations.StopList.UpdateIndices | other/static/js/prefrencesPage.js:59-65 | the labels become their renumbering, which is numbered |
| Destinations.StopList.Remove | other/static/js/prefrencesPage.js:52-55 | the item goes and the rest are renumbered, staying numbered |
| Destinations.RemoveFirstOfTwo | other/static/js/prefrencesPage.js:43-65 | adding two destinations and removing the first leaves the second as item 1 |
| Destinations.SplitName | other/static/js/prefrencesPage.js:62 | split('. ')[1] never contains ". " |
| Destinations.SplitNameOfLabel | other/static/js/prefrencesPage.js:62 | a name survives split('. ')[1] exactly when it has no ". "; otherwise only the text before its first ". " does |
| Destinations.RenumberedAsWritten | other/static/js/prefrencesPage.js:59-65 | updateIndices as written relabels item i with i + 1 and split('. ')[1] of its label |
| Destinations.SplitNameCutsAtSep | other/static/js/prefrencesPage.js:62 | a name a + ". " + b, with a free of ". ", comes back as a |
| Destinations.SplitNameTruncates | other/static/js/prefrencesPage.js:62 | "St. Helena Bay" comes back as "St"; the intended reading gives it back whole |
| Destinations.RenumberingTruncates | other/static/js/prefrencesPage.js:59-65 | renumbering as written turns "1. St. Helena Bay" into "1. St"; the intended one keeps it |
| Destinations.ReadingsAgreeWithoutSep | other/static/js/prefrencesPage.js:62 | on names without ". " both readings give the name |
| RoadGraph.FirstWithin | data/dijkstra.py:45-50 | the first point within the threshold, every earlier one being farther; nothing exactly when no point is within it |
| RoadGraph.FindClosestPointIndex | data/dijkstra.py:45-50 | the loop returns the first index within the threshold, not necessarily the nearest, or None |
| RoadGraph.FirstWithinIs | data/dijkstra.py:46-50 | an index i such that every earlier point is farther than the threshold and point i (if any) is within it is exactly what the search returns |
| RoadGraph.LineSegments | data/dijkstra.py:28-30 | one segment per consecutive pair of a road, none for a road of fewer than two points |
| RoadGraph.SnapSegment | data/dijkstra.py:32-34 | an accepted segment joins two distinct point indices |
| RoadGraph.GraphOf | data/dijkstra.py:26-38 | the graph after any run of segments has only point indices as keys |
| RoadGraph.AcceptedCount | data/dijkstra.py:34-38 | at most one edge is counted per segment |
| RoadGraph.ConnectSegment | data/dijkstra.py:29-38 | one segment is processed: the graph and the count grow by the segment's edge, if it has one |
| RoadGraph.AddRoad | data/dijkstra.py:27-38 | after one road, the graph and the count are those of all segments so far |
| RoadGraph.BuildGraph | data/dijkstra.py:21-43 | the result is the graph of all road segments, in order, and the count of accepted segments |
| RoadGraph.AddEdge | data/dijkstra.py:36-37 | both ends become keys; the list of each end gains the entry for the other end after the entries it had; every other list is unchanged |
| RoadGraph.AddEdgeKeepsEnds | data/dijkstra.py:34-37 | adding an edge keeps the graph free of self-loops and over point indices, with the weights as distances |
| RoadGraph.CountAfterAddEdge | data/dijkstra.py:36-37 | an accepted segment adds exactly one occurrence of each of its two entries |
| RoadGraph.AddEdgeKeepsSymmetric | data/dijkstra.py:36-37 | adding an edge keeps every entry matched at the other end, with the same weight |
| RoadGraph.GraphOfWellFormed | data/dijkstra.py:26-38 | after any prefix of segments the graph has no self-loops, is symmetric, and mentions only point indices, with distances as weights |
| RoadGraph.BuiltGraphWellFormed | data/dijkstra.py:21-43 | the graph build_graph returns has no self-loops, is symmetric with equal weights at both ends, and uses point indices only |
| RoadGraph.DegreeSumAddEdge | data/dijkstra.py:36-38 | an accepted segment adds one entry at each of its two ends |
| RoadGraph.DegreeSumIsTwiceAccepted | data/dijkstra.py:34-38 | the adjacency lists hold twice as many entries as there are accepted segments |
| RoadGraph.BuiltDegreeSum | data/dijkstra.py:25-40 | edge_count is half the number of adjacency entries of the built graph |
| ShortestPath.PopIndex | data/dijkstra.py:56 | heappop takes an entry that no other entry precedes in tuple order, hence one of least cost |
| ShortestPath.PushValid | data/dijkstra.py:60-65 | the entry pushed for an unvisited neighbor describes a walk from start whose length is its cost, repeating no node |
| ShortestPath.PushNeighbors | data/dijkstra.py:63-65 | the queue becomes the old queue followed by exactly one entry (cost + weight, neighbor, path + [node]) per edge into an unvisited neighbor, in adjacency order; it then offers every unvisited neighbor at the node's cost plus the weight, and every entry stays valid |
| ShortestPath.PushesAlong | data/dijkstra.py:63-65 | every entry the scan pushes is for an unvisited node, along the settled node's path |
| ShortestPath.PopIsShortest | data/dijkstra.py:56-59 | an unvisited entry of least cost costs no more than any walk from start to its node |
| ShortestPath.ClosedKeepsWalks | data/dijkstra.py:63-65 | a walk cannot leave a set that no edge leaves |
| ShortestPath.RemoveVisited | data/dijkstra.py:57-58 | dropping an entry for a visited node keeps the queue valid and all offers in place |
| ShortestPath.RemoveSettled | data/dijkstra.py:56-59 | dropping the popped entry of a node about to be settled keeps the rest valid for the larger visited set, and keeps the other offers |
| ShortestPath.FrontierAfterSettle | data/dijkstra.py:59-65 | after the scan, every edge out of a settled node into an unvisited one is offered in the queue |
| ShortestPath.ClosedAtEnd | data/dijkstra.py:55-67 | when the queue runs out without reaching end, no walk leads from start to end |
| ShortestPath.SkipKeeps | data/dijkstra.py:57-58 | skipping a visited node's entry keeps the search invariant |
| ShortestPath.PopFacts | data/dijkstra.py:56-59 | a popped unvisited entry is valid and shortest, and the rest of the queue suits the grown visited set |
| ShortestPath.FoundFacts | data/dijkstra.py:60-62 | when end is popped, its path and cost form a shortest route that repeats no node |
| ShortestPath.StateKeeps | data/dijkstra.py:59 | settling a node keeps every settled cost shortest and each node expanded once, and shrinks the unvisited part |
| ShortestPath.SettleKeeps | data/dijkstra.py:59-65 | settling a node and pushing its neighbors keeps the search invariant and shrinks the unvisited part |
| ShortestPath.ExhaustedFacts | data/dijkstra.py:55-67 | an empty queue means end is unreachable and differs from start, and every node reachable from start has been expanded, none twice |
| ShortestPath.SearchStep | data/dijkstra.py:55-65 | one round either expands end and returns a shortest route, or keeps the invariant while expanding nothing or exactly one node not expanded before, and makes progress |
| ShortestPath.Search | data/dijkstra.py:53-67 | the loop either finds a shortest route, with end the last node expanded, or runs out of entries, and then end is unreachable, differs from start, and every node reachable from start was expanded; no node is expanded twice |
| ShortestPath.Dijkstra | data/dijkstra.py:52-67 | a returned path runs from start to end along edges; its cost is the sum of its weights and no walk is shorter; it repeats no node; no route is returned exactly when end is unreachable; start == end gives ([start], 0); no node is expanded twice; a route is returned just after end is expanded, and when none is, every node reachable from start was expanded |
| ShortestPath.FindRoute | data/dijkstra.py:74-93 | an empty graph or point list stops first; an index outside [0, len(coords)) stops next; otherwise no path is reported exactly when end is unreachable, and a reported route is a shortest one |

## Left out

- Geodesic distance (`haversine`, data/dijkstra.py:6-15) is floating point. Distances are a parameter `dist` returning whole metres, so weights are natural numbers.
- File loading, `input()`, `print` and the console messages of `build_graph`, `find_closest_point_index`, `dijkstra` and `main` are I/O. `main`'s indices are parameters.
- `ShortestPath.FindRoute`: does not model the `ValueError` branch for non-numeric input, because the indices arrive as integers.
- `dijkstra`'s failure value `([], float('inf'))` is the `NoRoute` case, since infinity is a float.
- `ShortestPath.PopIndex`: the heap is a sequence from which the first entry preceded by no other is taken. `heapq`'s array layout is left out. Ties are broken on the whole (cost, node, path) tuple, as `EntryLess` does, so two entries the heap could choose between are equal and the route returned is the same.
- `graph[node]` on a `defaultdict` inserts an empty list for a missing key. `Adj` returns the empty list without inserting, and the inserted keys are never read.
- Timers are separate steps (`OptionCard.TimerFires`). `showNotification`, `console.log`, the touch scaling, resize and orientation handlers, `debounce` and focus styling are browser plumbing.
- `innerHTML`, `sessionStorage` serialisation and `location.href` are left out. A label is its span's text, and the stored value is the list of names.
- `Strings.ParseInt`: does not model the "0x" prefix, because the page only parses its own digit labels and the digits of a preset's text.
- `DurationPicker.Wheel.OnScroll`: layout arrives as integer boxes. Fractional offsets are left out, and positions are doubled so the source's halving stays exact.
- `DurationPicker.SelectedDuration`: requires the active preset's text to contain a digit, because the source throws on `null[0]` otherwise.
- `Selection.HandleKey`: a focused card always has an index, since the focused element is taken from the card list (`indexOf` never gives -1 there).
- The second Next-button listener of the duration page (durationPage.js:401-405) only navigates.
- `handleKeyNavigation`, `handleOrientationChange` and `debounce` are referenced but not defined in tourPlanPage.js (lines 36-42), a wiring failure at run time.
- The page's concrete wheel defaults (23/1, 59/26, 59/1 at durationPage.js:51-53) are covered by the general `DurationPicker.PopulatedWheelsDuration`.
- other/app.py, app.py, other/data/graph.py and the settings, visitor-report and feedback pages are not part of this model. They are web routes, library calls and UI.

## Findings

| source | as written | input that shows it | evidently intended | confidence | as-written member | corrected member |
|---|---|---|---|---|---|---|
| other/static/js/prefrencesPage.js:62 | `updateIndices` and the Start Tour handler (line 74) read a name as `label.split('. ')[1]`, the text between the first and second ". " | add "St. Helena Bay", then remove another item or press Start Tour: the label becomes "1. St" and the stored stop "St" | the name is everything after the first ". ", so every name comes back whole | not executed | Destinations.SplitNameTruncates | Destinations.LabelNameRoundTrip |
