/** `app-toggle-group`: a row of buttons of which one (or, with `multiple`,
    any number) is selected. In multiple mode the value is the selected
    button values joined with commas. */
module ToggleGroup {
  import opened Seqs
  import opened Text

  /** A child element: its tag name, its `role` and `value` attributes. */
  datatype Element = Element(tag: string, role: Option<string>, valueAttr: Option<string>)

  /** `_getButtons`' test: a `BUTTON` element or one with role `button`. */
  predicate IsButton(e: Element)
  {
    e.tag == "BUTTON" || e.role == Some("button")
  }

  /** `_getButtons`: the button children, in order. */
  function GetButtons(children: seq<Element>): (r: seq<Element>)
    ensures IsSubsequence(r, children)
    ensures forall i :: 0 <= i < |r| ==> IsButton(r[i])
    ensures forall i :: 0 <= i < |children| && IsButton(children[i]) ==> children[i] in r
    ensures forall e | e in children :: multiset(r)[e] == if IsButton(e) then multiset(children)[e] else 0
  {
    FilterIsSubsequence(children, IsButton);
    FilterMultiplicity(children, IsButton);
    Filter(children, IsButton)
  }

  /** The value a button stands for: `getAttribute('value') || String(index)`. */
  function ButtonValue(attr: Option<string>, index: nat): (r: string)
    ensures r != ""
    ensures attr.Some? && attr.value != "" ==> r == attr.value
    ensures attr.None? || attr.value == "" ==> r == NatToString(index) && AllDigits(r) && ',' !in r
  {
    if attr.Some? && attr.value != "" then attr.value
    else
      var r := NatToString(index);
      assert forall i :: 0 <= i < |r| ==> r[i] != ',';
      r
  }

  /** The selected values in multiple mode: none for the empty value,
      otherwise the comma-separated pieces. */
  function Values(value: string): (r: seq<string>)
    ensures value == "" <==> r == []
  {
    if value == "" then [] else Split(value, ',')
  }

  /** `_isSelected`. */
  predicate IsSelected(value: string, multiple: bool, v: string)
  {
    if multiple then v in Values(value) else value == v
  }

  /** The value `_handleClick` sets: in single mode the clicked value; in
      multiple mode the clicked value appended when absent, its first
      occurrence removed when present, joined again with commas. */
  function ClickValue(value: string, multiple: bool, v: string): string
  {
    if multiple then
      var values := Values(value);
      var index := IndexOf(values, v);
      if index == -1 then Join(values + [v], ',') else Join(RemoveAt(values, index), ',')
    else v
  }

  /** A multiple-mode value the clicks keep: its pieces are non-empty and
      distinct. */
  predicate WellFormed(value: string)
  {
    var vs := Values(value);
    && (forall k :: 0 <= k < |vs| ==> vs[k] != "")
    && (forall a, b :: 0 <= a < b < |vs| ==> vs[a] != vs[b])
  }

  /** A value a click can toggle cleanly: non-empty and comma-free. */
  predicate Toggleable(v: string)
  {
    v != "" && ',' !in v
  }

  /** Joining non-empty comma-free pieces and reading them back gives the
      pieces. */
  lemma ValuesJoin(parts: seq<string>)
    requires forall k :: 0 <= k < |parts| ==> Toggleable(parts[k])
    ensures Values(Join(parts, ',')) == parts
  {
    if |parts| > 0 {
      assert |Join(parts, ',')| >= |parts[0]| > 0;
      SplitJoin(parts, ',');
    }
  }

  /** The pieces after a multiple-mode click: the old ones with `v` added
      at the end, or with it taken out. */
  lemma ClickPieces(value: string, v: string)
    requires WellFormed(value) && Toggleable(v)
    ensures var vs := Values(value);
      && (v !in vs ==> Values(ClickValue(value, true, v)) == vs + [v])
      && (v in vs ==> Values(ClickValue(value, true, v)) == RemoveAt(vs, IndexOf(vs, v)))
  {
    var vs := Values(value);
    if value != "" {
      assert forall k :: 0 <= k < |vs| ==> ',' !in vs[k];
    }
    if v !in vs {
      ValuesJoin(vs + [v]);
    } else {
      ValuesJoin(RemoveAt(vs, IndexOf(vs, v)));
    }
  }

  /** In multiple mode a click toggles exactly the clicked value: it
      becomes selected when it was not and the other way round, every other
      value keeps its state, and the value stays well formed. */
  lemma {:induction false} ClickToggles(value: string, v: string)
    requires WellFormed(value) && Toggleable(v)
    ensures var nv := ClickValue(value, true, v);
      && WellFormed(nv)
      && (IsSelected(nv, true, v) <==> !IsSelected(value, true, v))
      && (forall w :: w != v ==> (IsSelected(nv, true, w) <==> IsSelected(value, true, w)))
  {
    var vs := Values(value);
    ClickPieces(value, v);
    if v in vs {
      RemoveAtMembers(vs, IndexOf(vs, v));
    }
  }

  /** Clicking an unselected value twice gives the old value string back,
      whatever pieces the old value has. */
  lemma ClickTwiceRestores(value: string, v: string)
    requires Toggleable(v) && !IsSelected(value, true, v)
    ensures ClickValue(ClickValue(value, true, v), true, v) == value
  {
    var vs := Values(value);
    var once := ClickValue(value, true, v);
    assert once == Join(vs + [v], ',');
    assert forall k :: 0 <= k < |vs + [v]| ==> ',' !in (vs + [v])[k];
    SplitJoin(vs + [v], ',');
    if vs != [] {
      JoinSnoc(vs, v, ',');
    }
    assert once != "";
    assert Values(once) == vs + [v];
    IndexOfAt(vs + [v], |vs|, v);
    assert RemoveAt(vs + [v], |vs|) == vs;
    if value != "" {
      JoinSplit(value, ',');
    }
  }

  /** With a repeated piece a click does not deselect: it removes only the
      first copy, so `a,a` becomes `a` and `a` stays selected. */
  lemma RepeatedPieceStaysSelected()
    ensures Values("a,a") == ["a", "a"]
    ensures ClickValue("a,a", true, "a") == "a"
    ensures IsSelected("a,a", true, "a") && IsSelected(ClickValue("a,a", true, "a"), true, "a")
  {
    assert Join(["a", "a"], ',') == "a,a";
    SplitJoin(["a", "a"], ',');
    assert IndexOf(["a", "a"], "a") == 0;
    assert RemoveAt(["a", "a"], 0) == ["a"];
  }

  /** With an empty piece another value's state can change: removing `a`
      from `,a` leaves the empty value, which no longer holds the empty
      piece. */
  lemma EmptyPieceLost()
    ensures Values(",a") == ["", "a"]
    ensures ClickValue(",a", true, "a") == ""
    ensures IsSelected(",a", true, "") && !IsSelected(ClickValue(",a", true, "a"), true, "")
  {
    assert Join(["", "a"], ',') == ",a";
    SplitJoin(["", "a"], ',');
    assert IndexOf(["", "a"], "a") == 1;
    assert RemoveAt(["", "a"], 1) == [""];
  }

  /** In single mode a click selects exactly the clicked value. */
  lemma SingleSelectsClicked(value: string, v: string)
    ensures forall w :: IsSelected(ClickValue(value, false, v), false, w) <==> w == v
  {
  }

  /** The `selected` class of each button as `_handleSlotChange` sets it. */
  function SelectionFlags(buttons: seq<Element>, value: string, multiple: bool): (r: seq<bool>)
    ensures |r| == |buttons|
  {
    seq(|buttons|, i requires 0 <= i < |buttons| => IsSelected(value, multiple, ButtonValue(buttons[i].valueAttr, i)))
  }

  class Group {
    var value: string
    var multiple: bool
    /** The button children, as `_getButtons` finds them. */
    var buttons: seq<Element>
    /** Whether each button carries the `selected` class. */
    var selected: seq<bool>

    constructor ()
      ensures value == "" && !multiple && buttons == [] && selected == []
    {
      value := "";
      multiple := false;
      buttons := [];
      selected := [];
    }

    /** `_handleSlotChange`: each button's `selected` class follows
        `_isSelected` of its value. */
    method HandleSlotChange()
      modifies this`selected
      ensures selected == SelectionFlags(buttons, value, multiple)
    {
      var flags: seq<bool> := [];
      var index := 0;
      while index < |buttons|
        invariant 0 <= index <= |buttons|
        invariant flags == SelectionFlags(buttons, value, multiple)[..index]
      {
        var v := ButtonValue(buttons[index].valueAttr, index);
        flags := flags + [IsSelected(value, multiple, v)];
        index := index + 1;
      }
      selected := flags;
    }

    /** A `slotchange`: the buttons are looked up again and marked. */
    method SlotChange(children: seq<Element>)
      modifies this`buttons, this`selected
      ensures buttons == GetButtons(children)
      ensures selected == SelectionFlags(buttons, value, multiple)
    {
      buttons := GetButtons(children);
      HandleSlotChange();
    }

    /** `_handleClick`: the new value is set, the buttons are marked again
        and `change` carries the new value. */
    method HandleClick(v: string) returns (changed: string)
      modifies this`value, this`selected
      ensures value == ClickValue(old(value), multiple, v) && changed == value
      ensures selected == SelectionFlags(buttons, value, multiple)
    {
      var newValue: string;
      if multiple {
        var values := Values(value);
        var index := IndexOf(values, v);
        if index == -1 {
          values := values + [v];
        } else {
          values := RemoveAt(values, index);
        }
        newValue := Join(values, ',');
      } else {
        newValue := v;
      }
      value := newValue;
      HandleSlotChange();
      changed := newValue;
    }
  }

  /** After a click on button `k` in a well-formed multiple group whose
      button values are comma-free, button `k` flips and every button with
      a different value keeps its mark. */
  lemma ClickOnButton(g: Group, k: int, oldValue: string)
    requires g.multiple && 0 <= k < |g.buttons| && WellFormed(oldValue)
    requires Toggleable(ButtonValue(g.buttons[k].valueAttr, k))
    requires g.value == ClickValue(oldValue, true, ButtonValue(g.buttons[k].valueAttr, k))
    ensures var before := SelectionFlags(g.buttons, oldValue, true);
      var after := SelectionFlags(g.buttons, g.value, true);
      && after[k] == !before[k]
      && forall j :: 0 <= j < |g.buttons| && ButtonValue(g.buttons[j].valueAttr, j) != ButtonValue(g.buttons[k].valueAttr, k) ==>
           after[j] == before[j]
  {
    ClickToggles(oldValue, ButtonValue(g.buttons[k].valueAttr, k));
  }
}
