// The selection state machines that the page scripts repeat: a group of
// elements of which a click leaves exactly one 'active' (bottom navigation
// items, duration presets), the classic/custom pair of the tour-plan page,
// the per-card 'loading' guard against double clicks, the notification
// texts chosen for journey options and navigation items, and the keyboard
// handler (Enter/Space click, ArrowUp/ArrowDown move focus cyclically).

module Selection {
  import opened Wrappers
  import opened Strings

  // ---------------------------------------------------------------------
  // Exactly-one-active groups
  // ---------------------------------------------------------------------

  /** The elements a selector such as '.nav-item' or '.preset-buttons button'
      returned, each with whether it carries the 'active' class. */
  class ExclusiveGroup {
    const active: array<bool>

    constructor (count: nat)
      ensures active.Length == count && fresh(active)
      ensures forall j :: 0 <= j < count ==> !active[j]
    {
      active := new bool[count](_ => false);
    }

    /** A click on element k: every element loses 'active', then k gains it. */
    method Click(k: nat)
      requires k < active.Length
      modifies active
      ensures forall j :: 0 <= j < active.Length ==> active[j] == (j == k)
    {
      for j := 0 to active.Length
        invariant forall i :: 0 <= i < j ==> !active[i]
      {
        active[j] := false;
      }
      active[k] := true;
    }
  }

  /** What document.querySelector finds for '.active' inside a group: the
      first flagged element in document order, or nothing. */
  function FirstActive(flags: seq<bool>): (r: Option<nat>)
    ensures r.None? <==> forall j :: 0 <= j < |flags| ==> !flags[j]
    ensures r.Some? ==> r.value < |flags| && flags[r.value]
                        && forall j :: 0 <= j < r.value ==> !flags[j]
  {
    if flags == [] then None
    else if flags[0] then Some(0)
    else match FirstActive(flags[1..])
      case None => None
      case Some(j) => Some(j + 1)
  }

  /** After a click on k, a query for the active element finds k. */
  lemma ClickedIsFound(flags: seq<bool>, k: nat)
    requires k < |flags|
    requires forall j :: 0 <= j < |flags| ==> flags[j] == (j == k)
    ensures FirstActive(flags) == Some(k)
  {
    assert flags[k];
    assert FirstActive(flags).value == k;
  }

  // ---------------------------------------------------------------------
  // Notification texts
  // ---------------------------------------------------------------------

  const ClassicMessage := "Starting Classic Garden Route..."
  const LimitedMessage := "Starting Limited Time Tour..."
  const UnknownOptionMessage := "Unknown option selected"
  const HomeMessage := "Already on Home page"
  const SearchMessage := "Search feature coming soon!"
  const SettingsMessage := "Settings feature coming soon!"

  /** The switch of handleJourneySelection on the option card's data-option. */
  function JourneyMessage(option: string): (m: string)
    ensures m in {ClassicMessage, LimitedMessage, UnknownOptionMessage}
    ensures m == ClassicMessage <==> option == "classic"
    ensures m == LimitedMessage <==> option == "limited"
  {
    match option
    case "classic" => ClassicMessage
    case "limited" => LimitedMessage
    case _ => UnknownOptionMessage
  }

  /** The switch of handleNavigation on the item's data-nav: a notification
      for the three known targets; anything else is only logged (None). */
  function NavMessage(navType: string): (m: Option<string>)
    ensures m.Some? <==> navType in {"home", "search", "settings"}
    ensures navType == "home" ==> m == Some(HomeMessage)
    ensures navType == "search" ==> m == Some(SearchMessage)
    ensures navType == "settings" ==> m == Some(SettingsMessage)
  {
    match navType
    case "home" => Some(HomeMessage)
    case "search" => Some(SearchMessage)
    case "settings" => Some(SettingsMessage)
    case _ => None
  }

  /** The lookup objects of the preferences page: their own properties. */
  const JourneyMessages: map<string, string> :=
    map["classic" := ClassicMessage, "limited" := LimitedMessage, "default" := UnknownOptionMessage]
  const NavMessages: map<string, string> :=
    map["home" := HomeMessage, "search" := SearchMessage, "settings" := SettingsMessage]

  /** The names every object literal inherits from Object.prototype. */
  const InheritedNames: set<string> :=
    {"constructor", "hasOwnProperty", "isPrototypeOf", "propertyIsEnumerable", "toLocaleString",
     "toString", "valueOf", "__proto__", "__defineGetter__", "__defineSetter__",
     "__lookupGetter__", "__lookupSetter__"}

  /** What showNotification is handed: a text, or the inherited member of
      that name (a function, or Object.prototype itself), which is truthy and
      shown as its string conversion. */
  datatype Shown = Text(text: string) | Member(name: string)

  /** messages[key] on an object literal with the own properties `own`:
      the own property, else the inherited member, else undefined (None). */
  function Property(own: map<string, string>, key: string): (p: Option<Shown>)
    ensures key in own ==> p == Some(Text(own[key]))
    ensures key !in own ==> (p.Some? <==> key in InheritedNames) && (p.Some? ==> p.value == Member(key))
  {
    if key in own then Some(Text(own[key]))
    else if key in InheritedNames then Some(Member(key))
    else None
  }

  /** JavaScript truthiness of a property read: undefined and '' are falsy. */
  predicate Truthy(p: Option<Shown>) {
    p.Some? && p.value != Text("")
  }

  /** messages[option] || messages.default */
  function LookupJourneyMessage(option: string): (m: Shown)
    ensures m.Member? <==> option in InheritedNames
    ensures m == Text(ClassicMessage) <==> option == "classic"
    ensures m == Text(LimitedMessage) <==> option == "limited"
    ensures m.Text? ==> m.text in {ClassicMessage, LimitedMessage, UnknownOptionMessage}
  {
    var p := Property(JourneyMessages, option);
    if Truthy(p) then p.value else Text(JourneyMessages["default"])
  }

  /** if (messages[navType]) showNotification(messages[navType]) */
  function LookupNavMessage(navType: string): (m: Option<Shown>)
    ensures m.Some? <==> navType in {"home", "search", "settings"} || navType in InheritedNames
    ensures m.Some? && m.value.Member? <==> navType in InheritedNames
    ensures navType == "home" ==> m == Some(Text(HomeMessage))
    ensures navType == "search" ==> m == Some(Text(SearchMessage))
    ensures navType == "settings" ==> m == Some(Text(SettingsMessage))
  {
    var p := Property(NavMessages, navType);
    if Truthy(p) then p else None
  }

  /** The preferences page's lookup objects choose the same notification as
      the switches of the other pages exactly for the keys that are not
      inherited from Object.prototype; for an inherited name the journey
      lookup shows that member instead of 'Unknown option selected', and the
      navigation lookup shows it where the switch only logs. */
  lemma LookupsAgreeWithSwitches(option: string, navType: string)
    ensures LookupJourneyMessage(option) == Text(JourneyMessage(option)) <==> option !in InheritedNames
    ensures LookupNavMessage(navType) == (if NavMessage(navType).Some? then Some(Text(NavMessage(navType).value)) else None)
            <==> navType !in InheritedNames
  {
  }

  /** handleNavClick: the clicked item becomes the only active one, and the
      notification handleNavigation shows for its data-nav is returned. */
  method HandleNavClick(items: ExclusiveGroup, navTypes: seq<string>, k: nat) returns (shown: Option<string>)
    requires |navTypes| == items.active.Length && k < |navTypes|
    modifies items.active
    ensures forall j :: 0 <= j < items.active.Length ==> items.active[j] == (j == k)
    ensures shown == NavMessage(navTypes[k])
  {
    items.Click(k);
    shown := NavMessage(navTypes[k]);
  }

  // ---------------------------------------------------------------------
  // The per-card double-click guard
  // ---------------------------------------------------------------------

  /** An option card: its data-option, whether it carries 'loading', and
      how many delayed callbacks (setTimeout) of its clicks are still due. */
  class OptionCard {
    const option: string
    var loading: bool
    var pending: nat

    /** The guard's invariant: a card has a callback due exactly while it is
        loading, and never more than one. */
    ghost predicate Valid()
      reads this
    {
      pending == (if loading then 1 else 0)
    }

    constructor (option: string)
      ensures Valid() && !loading && this.option == option
    {
      this.option := option;
      loading := false;
      pending := 0;
    }

    /** handleOptionClick: a click on a loading card does nothing; otherwise
        the card enters 'loading' and one delayed callback is scheduled. */
    method Click() returns (scheduled: bool)
      requires Valid()
      modifies this
      ensures Valid() && loading
      ensures scheduled == !old(loading)
      ensures pending == old(pending) + (if scheduled then 1 else 0)
    {
      if loading {
        return false;
      }
      loading := true;
      pending := pending + 1;
      scheduled := true;
    }

    /** The delayed step of handleOptionClick: the journey notification is
        shown and 'loading' is removed. */
    method TimerFires() returns (message: string)
      requires Valid() && pending > 0
      modifies this
      ensures Valid() && !loading && pending == old(pending) - 1
      ensures message == JourneyMessage(option)
    {
      message := JourneyMessage(option);
      loading := false;
      pending := pending - 1;
    }
  }

  // ---------------------------------------------------------------------
  // Classic / custom on the tour-plan page
  // ---------------------------------------------------------------------

  class PlanChoice {
    var classicActive: bool
    var customActive: bool

    constructor (classic: bool, custom: bool)
      ensures classicActive == classic && customActive == custom
    {
      classicActive, customActive := classic, custom;
    }

    method ClickClassic()
      modifies this
      ensures classicActive && !customActive
    {
      classicActive := true;
      customActive := false;
    }

    method ClickCustom()
      modifies this
      ensures customActive && !classicActive
    {
      customActive := true;
      classicActive := false;
    }
  }

  // ---------------------------------------------------------------------
  // Keyboard navigation
  // ---------------------------------------------------------------------

  /** ArrowDown: (currentIndex + 1) % cards.length. */
  function NextIndex(i: nat, n: nat): (j: nat)
    requires i < n
    ensures j < n
    ensures j == if i == n - 1 then 0 else i + 1
  {
    (i + 1) % n
  }

  /** ArrowUp: currentIndex === 0 ? cards.length - 1 : currentIndex - 1. */
  function PrevIndex(i: nat, n: nat): (j: nat)
    requires i < n
    ensures j < n
    ensures NextIndex(j, n) == i
  {
    if i == 0 then n - 1 else i - 1
  }

  lemma PrevUndoesNext(i: nat, n: nat)
    requires i < n
    ensures PrevIndex(NextIndex(i, n), n) == i
  {
  }

  /** Pressing ArrowDown k times from card i. */
  function DownPresses(i: nat, n: nat, k: nat): (j: nat)
    requires i < n
    ensures j < n
  {
    if k == 0 then i else NextIndex(DownPresses(i, n, k - 1), n)
  }

  /** ArrowDown walks the cards cyclically: k presses land on (i + k) mod n,
      so every card is reached and n presses come back to the start. */
  lemma {:induction false} DownPressesCycle(i: nat, n: nat, k: nat)
    requires i < n
    ensures DownPresses(i, n, k) == (i + k) % n
  {
    if k > 0 {
      DownPressesCycle(i, n, k - 1);
      var p := DownPresses(i, n, k - 1);
      assert p == (i + k - 1) % n;
      ModSucc(i + k - 1, n);
      assert DownPresses(i, n, k) == NextIndex(p, n) == (p + 1) % n;
    }
  }

  lemma ModSucc(a: nat, n: nat)
    requires 0 < n
    ensures (a + 1) % n == (a % n + 1) % n
  {
    var q, r := a / n, a % n;
    assert a == q * n + r;
    if r + 1 < n {
      ModUnique(a + 1, n, q, r + 1);
      ModUnique(r + 1, n, 0, r + 1);
    } else {
      ModUnique(a + 1, n, q + 1, 0);
      ModUnique(r + 1, n, 1, 0);
    }
  }

  lemma ModUnique(a: int, n: int, q: int, r: int)
    requires 0 <= r < n && a == q * n + r
    ensures a % n == r
  {
    var q', r' := a / n, a % n;
    assert a == q' * n + r';
    assert (q - q') * n == q * n - q' * n;
    if q > q' {
      MulAtLeast(q - q', n);
    } else if q < q' {
      MulAtLeast(q' - q, n);
    }
  }

  lemma {:induction false} MulAtLeast(d: int, n: int)
    requires d >= 1 && n > 0
    ensures d * n >= n
  {
    if d > 1 {
      MulAtLeast(d - 1, n);
      assert d * n == (d - 1) * n + n;
    }
  }

  datatype Key = Enter | Space | ArrowDown | ArrowUp | OtherKey

  /** What document.activeElement is when the key goes down. */
  datatype Focused = OptionCardAt(index: nat) | NavItem | NextButton | OtherElement

  datatype KeyAction = ClickFocused | FocusCard(index: nat) | NoAction

  /** The pages whose handleKeyNavigation is modelled; only the duration page
      also lets Enter/Space click its Next button. */
  datatype Page = DurationPage | TourTypePage | PreferencesPage

  /** handleKeyNavigation, given the number of option cards. */
  function HandleKey(page: Page, key: Key, focus: Focused, cards: nat): (a: KeyAction)
    requires focus.OptionCardAt? ==> focus.index < cards
    ensures a.ClickFocused? <==>
              (key == Enter || key == Space) &&
              (focus.OptionCardAt? || focus.NavItem? || (page == DurationPage && focus.NextButton?))
    ensures a.FocusCard? <==> (key == ArrowDown || key == ArrowUp) && focus.OptionCardAt?
    ensures a.FocusCard? ==> a.index < cards
    ensures a.FocusCard? && key == ArrowDown ==> a.index == NextIndex(focus.index, cards)
    ensures a.FocusCard? && key == ArrowUp ==> NextIndex(a.index, cards) == focus.index
  {
    match key
    case Enter | Space =>
      (match focus
       case OptionCardAt(_) => ClickFocused
       case NavItem => ClickFocused
       case NextButton => if page == DurationPage then ClickFocused else NoAction
       case OtherElement => NoAction)
    case ArrowDown =>
      if focus.OptionCardAt? then FocusCard(NextIndex(focus.index, cards)) else NoAction
    case ArrowUp =>
      if focus.OptionCardAt? then FocusCard(PrevIndex(focus.index, cards)) else NoAction
    case OtherKey => NoAction
  }
}
