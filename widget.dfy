/** The `MultiSelect` component's state and its event handlers. The items are fixed
    for the widget's lifetime; every handler runs to completion and sees the state the
    previous one left. */
module Widget {
  import opened Options
  import opened OrderedSet
  import opened Items
  import opened Selection
  import opened Navigation

  class MultiSelect {
    const items: seq<Item>
    var selected: seq<string>
    var input: string
    var focused: nat
    var listHidden: bool
    var selectFocused: bool
    var lastTime: int

    /** The selection is a set and the focused row exists. */
    ghost predicate Valid()
      reads this
    {
      NoDup(selected) && FocusInRange(items, input, focused)
    }

    /** Every selected id names an item. */
    ghost predicate Known()
      reads this
    {
      forall id :: id in selected ==> Find(items, id).Some?
    }

    function Snapshot(): State
      reads this
    {
      State(selected, input, focused, listHidden, selectFocused, lastTime)
    }

    /** `filteredItems`, the rows of the list. */
    function Visible(): seq<Item>
      reads this
    {
      FilterItems(items, input)
    }

    /** Mounting: the initial state, and the key listener registered at `now`. */
    constructor (items: seq<Item>, value: seq<string>, now: int)
      ensures Valid() && Known()
      ensures this.items == items && selected == DefaultValues(value, items)
      ensures input == "" && focused == 0 && listHidden && !selectFocused && lastTime == now
    {
      this.items := items;
      selected := DefaultValues(value, items);
      input := "";
      focused := 0;
      listHidden := true;
      selectFocused := false;
      lastTime := now;
    }

    /** The effect re-running after a render: the listener is registered anew and its
        `lastTime` starts again at `now`. */
    method Register(now: int)
      modifies this
      ensures Snapshot() == old(Snapshot()).(lastTime := now)
    {
      lastTime := now;
    }

    /** `selectItem(id)`. */
    method SelectItem(id: string) returns (emitted: Option<seq<string>>)
      requires Valid()
      modifies this
      ensures Valid()
      ensures var t := Toggle(old(selected), id);
              Snapshot() == old(Snapshot()).(selected := t.selection) && emitted == t.emitted
      ensures old(Known()) && Find(items, id).Some? ==> Known()
    {
      var t := Toggle(selected, id);
      selected := t.selection;
      emitted := t.emitted;
    }

    /** `removeAll`: the selection is emptied and `onChange` is not called. */
    method RemoveAll()
      requires Valid()
      modifies this
      ensures Valid() && Known()
      ensures Snapshot() == old(Snapshot()).(selected := [])
    {
      selected := [];
    }

    /** A click on a row of the list toggles that row's item. */
    method ClickRow(index: nat) returns (emitted: Option<seq<string>>)
      requires Valid() && index < |Visible()|
      modifies this
      ensures Valid() && (old(Known()) ==> Known())
      ensures var t := Toggle(old(selected), old(Visible())[index].id);
              Snapshot() == old(Snapshot()).(selected := t.selection) && emitted == t.emitted
    {
      var it := Visible()[index];
      emitted := SelectItem(it.id);
    }

    /** The close button of the chip of a selected item: that item is deselected and
        `onChange` receives the rest. */
    method CloseChip(id: string) returns (emitted: Option<seq<string>>)
      requires Valid() && id in selected
      modifies this
      ensures Valid() && (old(Known()) ==> Known())
      ensures id !in selected && |selected| == |old(selected)| - 1
      ensures Snapshot() == old(Snapshot()).(selected := Delete(old(selected), id))
      ensures emitted == Some(selected)
    {
      emitted := SelectItem(id);
    }

    /** `clickOutside`: a pointer-down outside the widget closes the list. */
    method ClickOutside()
      requires Valid()
      modifies this
      ensures Valid() && (old(Known()) ==> Known())
      ensures Snapshot() == old(Snapshot()).(listHidden := true)
    {
      listHidden := true;
    }

    /** `selectOnClick`: the control gains its focused look and the list flips between
        shown and hidden; opening asks for the list to be scrolled to its top. */
    method SelectOnClick() returns (scrollToTop: bool)
      requires Valid()
      modifies this
      ensures Valid() && (old(Known()) ==> Known())
      ensures Snapshot() == old(Snapshot()).(listHidden := !old(listHidden), selectFocused := true)
      ensures scrollToTop == old(listHidden)
    {
      selectFocused := true;
      scrollToTop := listHidden;
      listHidden := !listHidden;
    }

    /** The control losing focus drops its focused look and leaves the list as it is. */
    method Blur()
      requires Valid()
      modifies this
      ensures Valid() && (old(Known()) ==> Known())
      ensures Snapshot() == old(Snapshot()).(selectFocused := false)
    {
      selectFocused := false;
    }

    /** `onInputChange`: the filter text is replaced and the focus goes back to row 0. */
    method InputChange(text: string)
      requires Valid()
      modifies this
      ensures Valid() && (old(Known()) ==> Known())
      ensures Snapshot() == old(Snapshot()).(input := text, focused := 0)
      ensures Visible() == FilterItems(items, text)
    {
      input := text;
      focused := 0;
    }

    /** The pointer entering row `index` focuses it. */
    method HoverRow(index: nat)
      requires Valid() && index < |Visible()|
      modifies this
      ensures Valid() && (old(Known()) ==> Known())
      ensures Snapshot() == old(Snapshot()).(focused := index)
    {
      focused := index;
    }

    /** `onKeyDown` for a key pressed at time `now`. */
    method KeyDown(key: KeyCode, now: int) returns (prevented: bool, emitted: Option<seq<string>>, scrollRow: Option<nat>)
      requires Valid()
      modifies this
      ensures Valid() && (old(Known()) ==> Known())
      ensures var o := Navigation.KeyDown(items, old(Snapshot()), key, now);
              Snapshot() == o.state && prevented == o.prevented && emitted == o.emitted
              && scrollRow == o.scrollRow
    {
      emitted, scrollRow := None, None;
      if listHidden {
        prevented := false;
        return;
      }
      prevented := key == ArrowUp || key == ArrowDown || key == Enter;
      var visible := Visible();
      if key == Enter && |visible| > 0 {
        emitted := SelectItem(visible[focused].id);
        return;
      }
      if now - lastTime < DebounceMs {
        return;
      }
      lastTime := now;
      if key == ArrowUp && focused > 0 {
        focused := focused - 1;
        scrollRow := Some(focused);
        return;
      }
      if key == ArrowDown && focused < |visible| - 1 {
        focused := focused + 1;
        scrollRow := Some(focused);
      }
    }
  }

  /** The demonstration items: six items with ids "1" to "6" and titles "title1" to
      "title6". */
  function DemoItems(): seq<Item> {
    [Item("1", "title1"), Item("2", "title2"), Item("3", "title3"),
     Item("4", "title4"), Item("5", "title5"), Item("6", "title6")]
  }

  /** Typing "title3" into the demonstration widget leaves one row, that item's. */
  lemma DemoFilter()
    ensures FilterItems(DemoItems(), "title3") == [Item("3", "title3")]
  {
    var items := DemoItems();
    forall k | 0 <= k < |items| ensures Contains(items[k].title, "title3") <==> k == 2 {
      ContainsShort(items[k].title, "title3");
    }
    assert FilterByTitle(items[5..], "title3") == [];
    assert FilterByTitle(items[3..], "title3") == [];
    assert FilterByTitle(items[2..], "title3") == [items[2]];
  }

  /** Opening the demonstration widget and pressing Down five times within 100 ms
      focuses the second row only; Enter then selects item "2" without calling
      `onChange`, and a second Enter deselects it and calls `onChange` with no ids. */
  method DemoSession(t: int)
  {
    var w := new MultiSelect(DemoItems(), [], t);
    var wasHidden := w.SelectOnClick();
    assert wasHidden && |w.Visible()| == 6;
    var prevented, emitted, row := w.KeyDown(ArrowDown, t + 100);
    assert w.focused == 1 && row == Some(1);
    prevented, emitted, row := w.KeyDown(ArrowDown, t + 120);
    prevented, emitted, row := w.KeyDown(ArrowDown, t + 140);
    prevented, emitted, row := w.KeyDown(ArrowDown, t + 160);
    prevented, emitted, row := w.KeyDown(ArrowDown, t + 180);
    assert w.focused == 1 && prevented && row == None;
    prevented, emitted, row := w.KeyDown(Enter, t + 190);
    assert w.selected == ["2"] && emitted == None;
    prevented, emitted, row := w.KeyDown(Enter, t + 195);
    assert w.selected == [] && emitted == Some([]);
  }
}
