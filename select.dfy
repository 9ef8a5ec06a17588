/** `app-select`: a trigger that shows the label of the selected option and
    opens a list of options read from the element's children, with an
    optional search box that narrows the list. */
module Select {
  import opened Seqs
  import opened Text

  /** One option: the value it selects and the label (`caption`) it shows. */
  datatype Choice = Choice(value: string, caption: string)

  /** A child element as `firstUpdated` sees it: its `value` attribute, if
      present, and its text content. */
  datatype Child = Child(valueAttr: Option<string>, text: string)

  /** The option a child gives: `getAttribute('value') || textContent`, so
      a missing or empty attribute falls back to the text. */
  function ChoiceOf(c: Child): (r: Choice)
    ensures r.caption == c.text
    ensures c.valueAttr.Some? && c.valueAttr.value != "" ==> r.value == c.valueAttr.value
    ensures c.valueAttr.None? || c.valueAttr.value == "" ==> r.value == c.text
  {
    Choice(if c.valueAttr.Some? && c.valueAttr.value != "" then c.valueAttr.value else c.text, c.text)
  }

  /** The search test on an option: its lowercased label or value contains
      the query. The query is compared as stored. */
  predicate MatchesQuery(query: string, o: Choice)
  {
    Contains(Lower(o.caption), query) || Contains(Lower(o.value), query)
  }

  /** Index `i` holds the first option with the value. */
  predicate FoundAt(options: seq<Choice>, value: string, i: int)
  {
    0 <= i < |options| && options[i].value == value
    && forall j :: 0 <= j < i ==> options[j].value != value
  }

  /** `options.find(opt => opt.value === value)`. */
  function FindByValue(options: seq<Choice>, value: string): (r: Option<Choice>)
    ensures r.None? <==> forall i :: 0 <= i < |options| ==> options[i].value != value
    ensures r.Some? ==> r.value.value == value && exists i :: FoundAt(options, value, i) && options[i] == r.value
  {
    if |options| == 0 then None
    else if options[0].value == value then
      assert options[0] == options[0];
      Some(options[0])
    else
      var r := FindByValue(options[1..], value);
      if r.Some? then
        var i :| FoundAt(options[1..], value, i) && options[1..][i] == r.value;
        assert FoundAt(options, value, i + 1) && options[i + 1] == r.value;
        r
      else r
  }

  class Select {
    var value: string
    var placeholder: string
    var disabled: bool
    var searchable: bool
    var open: bool
    var searchQuery: string
    var options: seq<Choice>

    /** The search query is kept lowercased. */
    ghost predicate Valid()
      reads this
    {
      Lower(searchQuery) == searchQuery
    }

    constructor ()
      ensures Valid()
      ensures value == "" && placeholder == "Select..." && !disabled && !searchable
      ensures !open && searchQuery == "" && options == []
    {
      value := "";
      placeholder := "Select...";
      disabled := false;
      searchable := false;
      open := false;
      searchQuery := "";
      options := [];
    }

    /** `firstUpdated`: one option per child, in order. */
    method FirstUpdated(children: seq<Child>)
      modifies this`options
      ensures |options| == |children|
      ensures forall i :: 0 <= i < |children| ==> options[i] == ChoiceOf(children[i])
    {
      options := seq(|children|, i requires 0 <= i < |children| => ChoiceOf(children[i]));
    }

    /** `_toggleDropdown`: nothing while disabled; otherwise the list flips
        and the query is cleared. */
    method ToggleDropdown()
      requires Valid()
      modifies this`open, this`searchQuery
      ensures Valid()
      ensures disabled ==> open == old(open) && searchQuery == old(searchQuery)
      ensures !disabled ==> open == !old(open) && searchQuery == ""
    {
      if disabled {
        return;
      }
      open := !open;
      searchQuery := "";
    }

    /** `_closeDropdown`. */
    method CloseDropdown()
      modifies this`open, this`searchQuery
      ensures Valid()
      ensures !open && searchQuery == ""
    {
      open := false;
      searchQuery := "";
    }

    /** `_handleSearch`: the typed text, lowercased, becomes the query. */
    method HandleSearch(text: string)
      modifies this`searchQuery
      ensures Valid()
      ensures searchQuery == Lower(text)
    {
      searchQuery := Lower(text);
      LowerIdempotent(text);
    }

    /** `_selectOption`: the option's value becomes the value, the list
        closes, the query is cleared, and `change` carries the value and
        label. */
    method SelectOption(option: Choice) returns (changed: Choice)
      modifies this`value, this`open, this`searchQuery
      ensures Valid()
      ensures value == option.value && !open && searchQuery == ""
      ensures changed == option
    {
      value := option.value;
      open := false;
      searchQuery := "";
      changed := option;
    }

    /** `_getFilteredOptions`: every option unless searching with a
        non-empty query; then the options whose label or value matches, in
        their order. */
    function FilteredOptions(): (r: seq<Choice>)
      reads this
      ensures !searchable || searchQuery == "" ==> r == options
      ensures IsSubsequence(r, options)
      ensures searchable && searchQuery != "" ==>
        (forall i :: 0 <= i < |r| ==> MatchesQuery(searchQuery, r[i]))
        && (forall i :: 0 <= i < |options| && MatchesQuery(searchQuery, options[i]) ==> options[i] in r)
        && (forall o | o in options :: multiset(r)[o] == if MatchesQuery(searchQuery, o) then multiset(options)[o] else 0)
    {
      if !searchable || searchQuery == "" then
        assert IsSubsequence(options, options) by { FilterIsSubsequence(options, (o: Choice) => true); }
        options
      else
        var q := searchQuery;
        var p := (o: Choice) => MatchesQuery(q, o);
        FilterIsSubsequence(options, p);
        FilterMultiplicity(options, p);
        Filter(options, p)
    }

    /** `_getDisplayValue`: the label of the first option with the current
        value, or the placeholder when there is none. */
    function DisplayValue(): (r: string)
      reads this
      ensures (forall i :: 0 <= i < |options| ==> options[i].value != value) ==> r == placeholder
      ensures forall i :: FoundAt(options, value, i) ==> r == options[i].caption
    {
      var found := FindByValue(options, value);
      if found.Some? then found.value.caption else placeholder
    }

    /** `isPlaceholder` of `render`: the value is empty. */
    predicate IsPlaceholder()
      reads this
    {
      value == ""
    }
  }

  /** After typing a text, the search is case-insensitive: an option stays
      listed exactly when its label or value contains the text, both
      lowercased. */
  lemma SearchIgnoresCase(s: Select, text: string)
    requires s.searchable && s.searchQuery == Lower(text) && text != ""
    ensures forall i :: 0 <= i < |s.options| ==>
      (s.options[i] in s.FilteredOptions() <==>
        Contains(Lower(s.options[i].caption), Lower(text)) || Contains(Lower(s.options[i].value), Lower(text)))
  {
  }

  /** Whatever the handlers did, the stored query is lowercased, so the
      filter is case-insensitive in the query too: an option is listed
      exactly when its lowercased label or value contains the lowercased
      query. */
  lemma StoredQueryIgnoresCase(s: Select)
    requires s.Valid() && s.searchable && s.searchQuery != ""
    ensures forall i :: 0 <= i < |s.options| ==>
      (s.options[i] in s.FilteredOptions() <==>
        Contains(Lower(s.options[i].caption), Lower(s.searchQuery)) || Contains(Lower(s.options[i].value), Lower(s.searchQuery)))
  {
  }

  /** Choosing a listed option shows its label in the trigger when option
      values are distinct, and the placeholder styling is off unless the
      option's value is empty. */
  lemma SelectedLabelShown(s: Select, k: int)
    requires 0 <= k < |s.options| && s.value == s.options[k].value
    requires forall a, b :: 0 <= a < b < |s.options| ==> s.options[a].value != s.options[b].value
    ensures s.DisplayValue() == s.options[k].caption
    ensures s.IsPlaceholder() <==> s.options[k].value == ""
  {
  }

  /** A non-empty value that names no option shows the placeholder text
      without the placeholder styling: the styling looks only at whether
      the value is empty. */
  lemma UnknownValueStyling(s: Select)
    requires s.value != ""
    requires forall i :: 0 <= i < |s.options| ==> s.options[i].value != s.value
    ensures s.DisplayValue() == s.placeholder && !s.IsPlaceholder()
  {
  }
}
