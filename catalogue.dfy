/** The catalogue page `app-components`: the fixed list of components,
    their categories, and the list filtered by a search text and a
    category. */
module Catalogue {
  import opened Seqs
  import opened Text

  /** One catalogue entry. */
  datatype Entry = Entry(name: string, tag: string, category: string, desc: string)

  /** `COMPONENTS`, in the order of the page, written in six parts of ten. */
  const COMPONENTS: seq<Entry> := Part1 + Part2 + Part3 + Part4 + Part5 + Part6

  const Part1: seq<Entry> := [
    Entry("Accordion", "app-accordion", "Disclosure", "Collapsible content panels"),
    Entry("Alert", "app-alert", "Feedback", "Color-coded alert messages"),
    Entry("Alert Dialog", "app-alert-dialog", "Overlay", "Modal dialog with actions"),
    Entry("Aspect Ratio", "app-aspect-ratio", "Layout", "Maintains consistent ratios"),
    Entry("Avatar", "app-avatar", "Data Display", "User avatars with initials"),
    Entry("Badge", "app-badge", "Data Display", "Small status indicator"),
    Entry("Breadcrumb", "app-breadcrumb", "Navigation", "Navigation breadcrumb"),
    Entry("Button", "app-button", "Actions", "Button component"),
    Entry("Button Group", "app-button-group", "Actions", "Groups buttons together"),
    Entry("Calendar", "app-calendar", "Input", "Date calendar picker")
  ]

  const Part2: seq<Entry> := [
    Entry("Card", "app-card", "Layout", "Container component"),
    Entry("Carousel", "app-carousel", "Data Display", "Image/content slider"),
    Entry("Chart", "app-chart", "Data Display", "SVG chart visualization"),
    Entry("Checkbox", "app-checkbox", "Input", "Form checkbox"),
    Entry("Collapsible", "app-collapsible", "Disclosure", "Simple collapsible panel"),
    Entry("Combobox", "app-combobox", "Input", "Input with text filtering"),
    Entry("Command", "app-command", "Overlay", "Command palette search"),
    Entry("Context Menu", "app-context-menu", "Overlay", "Right-click menu"),
    Entry("Data Table", "app-data-table", "Data Display", "Advanced data table"),
    Entry("Date Picker", "app-date-picker", "Input", "Date input with calendar")
  ]

  const Part3: seq<Entry> := [
    Entry("Dialog", "app-dialog", "Overlay", "General purpose modal"),
    Entry("Direction", "app-direction", "Layout", "LTR/RTL support"),
    Entry("Divider", "app-divider", "Layout", "Visual divider with label"),
    Entry("Drawer", "app-drawer", "Overlay", "Slide-out side panel"),
    Entry("Dropdown Menu", "app-dropdown-menu", "Navigation", "Dropdown with items"),
    Entry("Empty", "app-empty", "Feedback", "Empty state placeholder"),
    Entry("Field", "app-field", "Input", "Form field wrapper"),
    Entry("Hover Card", "app-hover-card", "Overlay", "Card on hover"),
    Entry("Input", "app-input", "Input", "Text input component"),
    Entry("Input Group", "app-input-group", "Input", "Input with addons")
  ]

  const Part4: seq<Entry> := [
    Entry("Input OTP", "app-input-otp", "Input", "One-time password input"),
    Entry("Item", "app-item", "Data Display", "List item component"),
    Entry("Kbd", "app-kbd", "Data Display", "Keyboard key styling"),
    Entry("Label", "app-label", "Input", "Form label"),
    Entry("Menubar", "app-menubar", "Navigation", "Horizontal menu bar"),
    Entry("Native Select", "app-native-select", "Input", "Styled native select"),
    Entry("Navigation Menu", "app-navigation-menu", "Navigation", "Main navigation"),
    Entry("Pagination", "app-pagination", "Navigation", "Pagination controls"),
    Entry("Popover", "app-popover", "Overlay", "Floating content container"),
    Entry("Progress", "app-progress", "Feedback", "Linear progress bar")
  ]

  const Part5: seq<Entry> := [
    Entry("Radio Group", "app-radio-group", "Input", "Radio button group"),
    Entry("Resizable", "app-resizable", "Layout", "Resizable panel"),
    Entry("Scroll Area", "app-scroll-area", "Layout", "Custom scrollable area"),
    Entry("Select", "app-select", "Input", "Custom select dropdown"),
    Entry("Separator", "app-separator", "Layout", "Visual divider line"),
    Entry("Sheet", "app-sheet", "Overlay", "Slide-up panel"),
    Entry("Sidebar", "app-sidebar", "Layout", "Collapsible sidebar"),
    Entry("Skeleton", "app-skeleton", "Feedback", "Loading placeholder"),
    Entry("Slider", "app-slider", "Input", "Range slider"),
    Entry("Sonner", "app-sonner", "Feedback", "Stackable toasts")
  ]

  const Part6: seq<Entry> := [
    Entry("Spinner", "app-spinner", "Feedback", "Loading spinner"),
    Entry("Switch", "app-switch", "Input", "Toggle switch"),
    Entry("Table", "app-table", "Data Display", "Simple table wrapper"),
    Entry("Tabs", "app-tabs", "Navigation", "Tab navigation"),
    Entry("Textarea", "app-textarea", "Input", "Multi-line text input"),
    Entry("Toast", "app-toast", "Feedback", "Toast notification"),
    Entry("Toggle", "app-toggle", "Actions", "Toggle button"),
    Entry("Toggle Group", "app-toggle-group", "Actions", "Toggle button group"),
    Entry("Tooltip", "app-tooltip", "Overlay", "Tooltip on hover/focus"),
    Entry("Typography", "app-typography", "Typography", "Text components")
  ]

  /** The category of each entry, in order. */
  function CategoryList(entries: seq<Entry>): (r: seq<string>)
    ensures |r| == |entries|
    ensures forall i :: 0 <= i < |entries| ==> r[i] == entries[i].category
  {
    seq(|entries|, i requires 0 <= i < |entries| => entries[i].category)
  }

  /** `[...new Set(s)]`: each element once, at its first appearance. */
  function Distinct(s: seq<string>): (r: seq<string>)
    decreases |s|
  {
    if |s| == 0 then []
    else
      var d := Distinct(s[..|s| - 1]);
      if s[|s| - 1] in d then d else d + [s[|s| - 1]]
  }

  /** The result of `Distinct` has no repeats and the same elements as its
      input. */
  lemma {:induction false} DistinctMembers(s: seq<string>)
    ensures forall a, b :: 0 <= a < b < |Distinct(s)| ==> Distinct(s)[a] != Distinct(s)[b]
    ensures forall x :: x in Distinct(s) <==> x in s
    decreases |s|
  {
    if |s| > 0 {
      var init := s[..|s| - 1];
      DistinctMembers(init);
      assert s == init + [s[|s| - 1]];
      forall x ensures x in s <==> x in init || x == s[|s| - 1] {
        if x in s {
          var i :| 0 <= i < |s| && s[i] == x;
          if i < |s| - 1 { assert init[i] == x; }
        }
      }
    }
  }

  /** `Distinct` keeps the order of first appearance: of two of its
      elements, the earlier one first occurs earlier in the input. */
  lemma {:induction false} DistinctOrder(s: seq<string>)
    ensures forall a, b :: 0 <= a < b < |Distinct(s)| ==> IndexOf(s, Distinct(s)[a]) < IndexOf(s, Distinct(s)[b])
    decreases |s|
  {
    if |s| > 0 {
      var init := s[..|s| - 1];
      var last := s[|s| - 1];
      var d := Distinct(init);
      DistinctOrder(init);
      DistinctMembers(init);
      forall x | x in init
        ensures IndexOf(s, x) == IndexOf(init, x)
      {
        var k := IndexOf(init, x);
        assert s[k] == x;
        assert forall j :: 0 <= j < k ==> s[j] == init[j];
        IndexOfAt(s, k, x);
      }
      if last !in d {
        assert last !in init;
        assert forall j :: 0 <= j < |s| - 1 ==> s[j] != last by {
          forall j | 0 <= j < |s| - 1 ensures s[j] != last { assert s[j] == init[j]; }
        }
        IndexOfAt(s, |s| - 1, last);
      }
    }
  }

  /** `CATEGORIES`: every category of the catalogue once, ordered by its
      first entry. */
  function Categories(): (r: seq<string>)
    ensures forall a, b :: 0 <= a < b < |r| ==> r[a] != r[b]
    ensures forall i :: 0 <= i < |COMPONENTS| ==> COMPONENTS[i].category in r
    ensures forall c :: c in r ==> exists i :: 0 <= i < |COMPONENTS| && COMPONENTS[i].category == c
    ensures forall a, b :: 0 <= a < b < |r| ==>
      IndexOf(CategoryList(COMPONENTS), r[a]) < IndexOf(CategoryList(COMPONENTS), r[b])
  {
    var cats := CategoryList(COMPONENTS);
    DistinctMembers(cats);
    DistinctOrder(cats);
    Distinct(cats)
  }

  /** The component count the page shows. */
  lemma CatalogueSize()
    ensures |COMPONENTS| == 60
  {
  }

  /** The search test: the lowercased search text occurs in the lowercased
      name, tag or description. */
  predicate MatchesSearch(search: string, c: Entry)
  {
    var q := Lower(search);
    Contains(Lower(c.name), q) || Contains(Lower(c.tag), q) || Contains(Lower(c.desc), q)
  }

  /** The category test: `All`, or the entry's own category. */
  predicate MatchesCategory(category: string, c: Entry)
  {
    category == "All" || c.category == category
  }

  /** The search and category filter of `render` on a list of cards:
      the cards that pass both tests, in their order, each as often as in
      the list. */
  function FilterCards(cards: seq<Entry>, search: string, category: string): (r: seq<Entry>)
    ensures IsSubsequence(r, cards)
    ensures forall i :: 0 <= i < |r| ==> MatchesSearch(search, r[i]) && MatchesCategory(category, r[i])
    ensures forall i :: 0 <= i < |cards| && MatchesSearch(search, cards[i]) && MatchesCategory(category, cards[i]) ==>
      cards[i] in r
    ensures forall c | c in cards ::
      multiset(r)[c] == if MatchesSearch(search, c) && MatchesCategory(category, c) then multiset(cards)[c] else 0
  {
    var p := (c: Entry) => MatchesSearch(search, c) && MatchesCategory(category, c);
    FilterIsSubsequence(cards, p);
    FilterMultiplicity(cards, p);
    Filter(cards, p)
  }

  /** The cards `render` shows: the catalogue, filtered. */
  function Filtered(search: string, category: string): seq<Entry>
  {
    FilterCards(COMPONENTS, search, category)
  }

  /** With an empty search and category `All` every component is listed,
      in order. */
  lemma EverythingAtStart()
    ensures Filtered("", "All") == COMPONENTS
  {
    EmptySearchKeepsAll(COMPONENTS);
  }

  /** The empty search in category `All` keeps every card of a list. */
  lemma EmptySearchKeepsAll(cards: seq<Entry>)
    ensures FilterCards(cards, "", "All") == cards
  {
    forall i | 0 <= i < |cards|
      ensures MatchesSearch("", cards[i])
    {
      ContainsEmptyAndSelf(Lower(cards[i].name));
    }
  }

  /** The "No components found" message shows exactly when no component
      passes both tests. */
  lemma EmptyState(search: string, category: string)
    ensures |Filtered(search, category)| == 0 <==>
      forall i :: 0 <= i < |COMPONENTS| ==> !(MatchesSearch(search, COMPONENTS[i]) && MatchesCategory(category, COMPONENTS[i]))
  {
    var p := (c: Entry) => MatchesSearch(search, c) && MatchesCategory(category, c);
    FilterEmptyIff(COMPONENTS, p);
  }

  class Page {
    var search: string
    var category: string

    constructor ()
      ensures search == "" && category == "All"
    {
      search := "";
      category := "All";
    }

    /** Typing in the search box. */
    method SetSearch(text: string)
      modifies this`search
      ensures search == text
    {
      search := text;
    }

    /** A category button, `All` included. */
    method SetCategory(c: string)
      modifies this`category
      ensures category == c
    {
      category := c;
    }

    /** The cards of the page in its current state. */
    function Shown(): (r: seq<Entry>)
      reads this
      ensures r == Filtered(search, category)
    {
      Filtered(search, category)
    }
  }
}
