/** `app-combobox`: a text input over a list of string options. Typing
    filters the list case-insensitively; the arrow keys move a highlight
    around the filtered list, wrapping at both ends; Enter picks the
    highlighted option. */
module Combobox {
  import opened Seqs
  import opened Text

  /** The filtering test: the option, lowercased, contains the lowercased
      filter text. */
  predicate Matches(filter: string, option: string)
  {
    Contains(Lower(option), Lower(filter))
  }

  /** The index ArrowDown moves to from `index` (-1 for none) in a list of
      `len` options: the next one, the first one after the last. */
  function DownIndex(index: int, len: int): (r: int)
    requires -1 <= index < len && len > 0
    ensures 0 <= r < len
    ensures index < len - 1 ==> r == index + 1
    ensures index == len - 1 ==> r == 0
  {
    if index < len - 1 then index + 1 else 0
  }

  /** The index ArrowUp moves to: the previous one, the last one from the
      first or from none. */
  function UpIndex(index: int, len: int): (r: int)
    requires -1 <= index < len && len > 0
    ensures 0 <= r < len
    ensures index > 0 ==> r == index - 1
    ensures index <= 0 ==> r == len - 1
  {
    if index > 0 then index - 1 else len - 1
  }

  /** From a highlighted option, the two arrows undo each other, and
      ArrowDown is the successor modulo the length. */
  lemma UpDownInverse(index: int, len: int)
    requires 0 <= index < len
    ensures UpIndex(DownIndex(index, len), len) == index
    ensures DownIndex(UpIndex(index, len), len) == index
    ensures DownIndex(index, len) == (index + 1) % len
  {
  }

  /** In a list without repeats each option is found at its own index. */
  lemma IndexOfDistinct(s: seq<string>, j: int)
    requires 0 <= j < |s|
    requires forall a, b :: 0 <= a < b < |s| ==> s[a] != s[b]
    ensures IndexOf(s, s[j]) == j
  {
    IndexOfAt(s, j, s[j]);
  }

  class Combobox {
    var value: string
    var options: seq<string>
    var filterable: bool
    var open: bool
    var filterText: string
    /** `_highlightedOption`, undefined until an arrow key sets it. */
    var highlighted: Option<string>

    constructor ()
      ensures value == "" && options == [] && filterable && !open && filterText == "" && highlighted.None?
    {
      value := "";
      options := [];
      filterable := true;
      open := false;
      filterText := "";
      highlighted := None;
    }

    /** `filteredOptions`: every option when filtering is off or the filter
        is empty; otherwise the options that match, in their order. */
    function FilteredOptions(): (r: seq<string>)
      reads this
      ensures !filterable || filterText == "" ==> r == options
      ensures IsSubsequence(r, options)
      ensures filterable && filterText != "" ==>
        (forall i :: 0 <= i < |r| ==> Matches(filterText, r[i]))
        && (forall i :: 0 <= i < |options| && Matches(filterText, options[i]) ==> options[i] in r)
    {
      if !filterable || filterText == "" then
        assert IsSubsequence(options, options) by { FilterIsSubsequence(options, (o: string) => true); }
        options
      else
        var filter := filterText;
        var p := (o: string) => Matches(filter, o);
        FilterIsSubsequence(options, p);
        Filter(options, p)
    }

    /** While filtering, every option that matches is listed as often as
        it occurs, and no other. */
    lemma FilteredCounts()
      requires filterable && filterText != ""
      ensures forall o | o in options ::
        multiset(FilteredOptions())[o] == if Matches(filterText, o) then multiset(options)[o] else 0
    {
      var filter := filterText;
      FilterMultiplicity(options, (o: string) => Matches(filter, o));
    }

    /** `displayValue`: the filter text while the list is open for
        filtering, the value otherwise. */
    function DisplayValue(): (r: string)
      reads this
      ensures filterable && open ==> r == filterText
      ensures !(filterable && open) ==> r == value
    {
      if filterable && open then filterText else value
    }

    /** `_toggleDropdown`: open flips; closing also clears the filter. */
    method ToggleDropdown()
      modifies this`open, this`filterText
      ensures open == !old(open)
      ensures filterText == if open then old(filterText) else ""
    {
      open := !open;
      if !open {
        filterText := "";
      }
    }

    /** `_closeDropdown`. */
    method CloseDropdown()
      modifies this`open, this`filterText
      ensures !open && filterText == ""
    {
      open := false;
      filterText := "";
    }

    /** `_handleInput`: the typed text becomes the filter and the list
        opens. */
    method HandleInput(text: string)
      modifies this`open, this`filterText
      ensures open && filterText == text
    {
      filterText := text;
      if !open {
        open := true;
      }
    }

    /** `_handleFocus`. */
    method HandleFocus()
      modifies this`open
      ensures open
    {
      open := true;
    }

    /** `_selectOption`: the option becomes the value and is announced; the
        filter is cleared and the list closes. The highlight stays. */
    method SelectOption(option: string) returns (changed: string)
      modifies this`value, this`filterText, this`open
      ensures value == option && filterText == "" && !open && changed == option
    {
      value := option;
      filterText := "";
      open := false;
      changed := option;
    }

    /** `_handleKeydown`. `preventDefault` tells whether the key's default
        action was cancelled; `changed` is the announced value, if any. */
    method HandleKeydown(key: string) returns (preventDefault: bool, changed: Option<string>)
      modifies this
      ensures options == old(options) && filterable == old(filterable)
      ensures preventDefault <==> key in ["Escape", "Enter", "ArrowDown", "ArrowUp"]
      ensures key == "Escape" || key == "Tab" ==>
        !open && filterText == "" && value == old(value) && highlighted == old(highlighted) && changed.None?
      ensures key == "Enter" ==>
        var opts := old(FilteredOptions());
        && highlighted == old(highlighted)
        && (if old(highlighted).Some? && old(highlighted).value != "" then
              value == old(highlighted).value && changed == Some(value) && !open && filterText == ""
            else if |opts| == 1 then
              value == opts[0] && changed == Some(value) && !open && filterText == ""
            else
              value == old(value) && open == old(open) && filterText == old(filterText) && changed.None?)
      ensures key == "ArrowDown" ==>
        var opts := old(FilteredOptions());
        && value == old(value) && filterText == old(filterText) && changed.None?
        && (!old(open) ==> open && highlighted == old(highlighted))
        && (old(open) && |opts| == 0 ==> open && highlighted == old(highlighted))
        && (old(open) && |opts| > 0 ==>
              open && highlighted == Some(opts[DownIndex(HighlightIndex(opts, old(highlighted)), |opts|)]))
      ensures key == "ArrowUp" ==>
        var opts := old(FilteredOptions());
        && value == old(value) && filterText == old(filterText) && open == old(open) && changed.None?
        && (|opts| == 0 ==> highlighted == old(highlighted))
        && (|opts| > 0 ==> highlighted == Some(opts[UpIndex(HighlightIndex(opts, old(highlighted)), |opts|)]))
      ensures key !in ["Escape", "Enter", "ArrowDown", "ArrowUp", "Tab"] ==>
        value == old(value) && open == old(open) && filterText == old(filterText)
        && highlighted == old(highlighted) && changed.None?
    {
      var opts := FilteredOptions();
      var highlightedIndex := HighlightIndex(opts, highlighted);
      preventDefault := false;
      changed := None;
      if key == "Escape" {
        preventDefault := true;
        CloseDropdown();
      } else if key == "Enter" {
        preventDefault := true;
        if highlighted.Some? && highlighted.value != "" {
          var c := SelectOption(highlighted.value);
          changed := Some(c);
        } else if |opts| == 1 {
          var c := SelectOption(opts[0]);
          changed := Some(c);
        }
      } else if key == "ArrowDown" {
        preventDefault := true;
        if !open {
          open := true;
        } else if |opts| > 0 {
          var nextIndex := if highlightedIndex < |opts| - 1 then highlightedIndex + 1 else 0;
          highlighted := Some(opts[nextIndex]);
        }
      } else if key == "ArrowUp" {
        preventDefault := true;
        if |opts| > 0 {
          var prevIndex := if highlightedIndex > 0 then highlightedIndex - 1 else |opts| - 1;
          highlighted := Some(opts[prevIndex]);
        }
      } else if key == "Tab" {
        CloseDropdown();
      }
    }
  }

  /** `options.indexOf(this._highlightedOption)`: -1 with no highlight or
      one not in the list. */
  function HighlightIndex(opts: seq<string>, h: Option<string>): (r: int)
    ensures -1 <= r < |opts|
    ensures r == -1 <==> h.None? || h.value !in opts
    ensures r >= 0 ==> opts[r] == h.value
  {
    if h.None? then -1 else IndexOf(opts, h.value)
  }

  /** The option ArrowDown highlights in an open, non-empty list, and the
      one ArrowUp highlights. */
  function AfterDown(opts: seq<string>, h: Option<string>): string
    requires |opts| > 0
  {
    opts[DownIndex(HighlightIndex(opts, h), |opts|)]
  }

  function AfterUp(opts: seq<string>, h: Option<string>): string
    requires |opts| > 0
  {
    opts[UpIndex(HighlightIndex(opts, h), |opts|)]
  }

  /** Without a highlight in the list, ArrowDown goes to the first option
      and ArrowUp to the last; in a list without repeats, ArrowUp undoes
      ArrowDown and the other way round. */
  lemma ArrowsCycle(opts: seq<string>, h: Option<string>)
    requires |opts| > 0
    ensures h.None? || h.value !in opts ==> AfterDown(opts, h) == opts[0] && AfterUp(opts, h) == opts[|opts| - 1]
    ensures (forall a, b :: 0 <= a < b < |opts| ==> opts[a] != opts[b]) && h.Some? && h.value in opts ==>
      AfterUp(opts, Some(AfterDown(opts, h))) == h.value && AfterDown(opts, Some(AfterUp(opts, h))) == h.value
  {
    if (forall a, b :: 0 <= a < b < |opts| ==> opts[a] != opts[b]) && h.Some? && h.value in opts {
      var i := HighlightIndex(opts, h);
      var d := DownIndex(i, |opts|);
      var u := UpIndex(i, |opts|);
      IndexOfDistinct(opts, d);
      IndexOfDistinct(opts, u);
      UpDownInverse(i, |opts|);
    }
  }
}
