/** The `keydown` handler the widget registers on the document, as a pure step from
    the widget's state to the next state and to what the handler does besides. */
module Navigation {
  import opened Options
  import opened OrderedSet
  import opened Items
  import opened Selection

  /** `KeysCode.UP`, `KeysCode.DOWN`, `KeysCode.ENTER`, and every other key code. */
  datatype KeyCode = ArrowUp | ArrowDown | Enter | OtherKey

  /** Arrow keys arriving less than this many milliseconds after `lastTime` are dropped. */
  const DebounceMs: int := 100

  /** The widget's state: `currentValues` (insertion order), `inputValue`,
      `focusedSelectItem`, `isListHidden`, `isSelectFocused`, and the key handler's
      `lastTime` in milliseconds. */
  datatype State = State(
    selected: seq<string>,
    input: string,
    focused: nat,
    listHidden: bool,
    selectFocused: bool,
    lastTime: int)

  /** The focused row is a row of the visible list, or row 0 when that list is empty. */
  predicate FocusInRange(items: seq<Item>, input: string, focused: nat) {
    focused == 0 || focused < |FilterItems(items, input)|
  }

  /** What one key press leaves behind: the new state, whether `preventDefault` was
      called, the ids given to `onChange` if it was called, and the row `scrollTo` is
      asked to bring into view. */
  datatype KeyOutcome = KeyOutcome(
    state: State,
    prevented: bool,
    emitted: Option<seq<string>>,
    scrollRow: Option<nat>)

  /** `onKeyDown` for a key pressed at time `now`. */
  function KeyDown(items: seq<Item>, s: State, key: KeyCode, now: int): (o: KeyOutcome)
    requires NoDup(s.selected) && FocusInRange(items, s.input, s.focused)
    ensures NoDup(o.state.selected) && FocusInRange(items, o.state.input, o.state.focused)
    ensures o.state.input == s.input && o.state.listHidden == s.listHidden
    ensures o.state.selectFocused == s.selectFocused
    ensures s.listHidden ==> o == KeyOutcome(s, false, None, None)
    ensures !s.listHidden ==> (o.prevented <==> key != OtherKey)
    ensures o.state.selected != s.selected || o.emitted.Some? ==> key == Enter
    ensures key != ArrowUp && key != ArrowDown ==> o.state.focused == s.focused && o.scrollRow == None
    ensures o.state.focused < s.focused ==> key == ArrowUp
    ensures o.scrollRow.Some? ==> o.state.focused != s.focused
    ensures (!s.listHidden && !(key == Enter && |FilterItems(items, s.input)| > 0)
             && now - s.lastTime >= DebounceMs) ==> o.state.lastTime == now
    ensures o.state.focused > s.focused ==> key == ArrowDown
    ensures o.state.lastTime != s.lastTime ==> o.state.lastTime == now && now - s.lastTime >= DebounceMs
    ensures o.state.focused != s.focused ==>
              && o.state.lastTime == now && now - s.lastTime >= DebounceMs
              && o.scrollRow == Some(o.state.focused)
              && (o.state.focused + 1 == s.focused || o.state.focused == s.focused + 1)
  {
    if s.listHidden then KeyOutcome(s, false, None, None)
    else
      var prevented := key != OtherKey;
      var visible := FilterItems(items, s.input);
      if key == Enter && |visible| > 0 then
        var t := Toggle(s.selected, visible[s.focused].id);
        KeyOutcome(s.(selected := t.selection), prevented, t.emitted, None)
      else if now - s.lastTime < DebounceMs then
        KeyOutcome(s, prevented, None, None)
      else
        var stamped := s.(lastTime := now);
        if key == ArrowUp && s.focused > 0 then
          KeyOutcome(stamped.(focused := s.focused - 1), prevented, None, Some(s.focused - 1))
        else if key == ArrowDown && s.focused < |visible| - 1 then
          KeyOutcome(stamped.(focused := s.focused + 1), prevented, None, Some(s.focused + 1))
        else
          KeyOutcome(stamped, prevented, None, None)
  }

  /** Enter on a non-empty visible list toggles the focused row's item, whatever the
      time, and leaves the focus and `lastTime` alone. */
  lemma EnterTogglesFocusedRow(items: seq<Item>, s: State, now: int)
    requires NoDup(s.selected) && FocusInRange(items, s.input, s.focused)
    requires !s.listHidden && |FilterItems(items, s.input)| > 0
    ensures var t := Toggle(s.selected, FilterItems(items, s.input)[s.focused].id);
            KeyDown(items, s, Enter, now) == KeyOutcome(s.(selected := t.selection), true, t.emitted, None)
  {
  }

  /** Enter on an empty visible list selects nothing but, like any key past the
      debounce window, restamps `lastTime`. */
  lemma EnterOnEmptyList(items: seq<Item>, s: State, now: int)
    requires NoDup(s.selected) && FocusInRange(items, s.input, s.focused)
    requires !s.listHidden && |FilterItems(items, s.input)| == 0
    ensures var o := KeyDown(items, s, Enter, now);
            && o.prevented && o.emitted == None && o.state.focused == 0
            && o.state == if now - s.lastTime < DebounceMs then s else s.(lastTime := now)
  {
  }

  /** An arrow key inside the debounce window is consumed and changes nothing. */
  lemma ArrowWithinDebounceIgnored(items: seq<Item>, s: State, key: KeyCode, now: int)
    requires NoDup(s.selected) && FocusInRange(items, s.input, s.focused)
    requires !s.listHidden && (key == ArrowUp || key == ArrowDown)
    requires now - s.lastTime < DebounceMs
    ensures KeyDown(items, s, key, now) == KeyOutcome(s, true, None, None)
  {
  }

  /** Past the debounce window an arrow key restamps `lastTime` and moves the focus
      one row when a row exists in that direction. */
  lemma ArrowMovesFocus(items: seq<Item>, s: State, key: KeyCode, now: int)
    requires NoDup(s.selected) && FocusInRange(items, s.input, s.focused)
    requires !s.listHidden && (key == ArrowUp || key == ArrowDown)
    requires now - s.lastTime >= DebounceMs
    ensures var len := |FilterItems(items, s.input)|;
            var o := KeyDown(items, s, key, now);
            && o.prevented && o.emitted == None
            && o.state.selected == s.selected && o.state.lastTime == now
            && o.state.focused == (if key == ArrowUp then (if s.focused > 0 then s.focused - 1 else s.focused)
                                   else (if s.focused < len - 1 then s.focused + 1 else s.focused))
  {
  }

  /** The same key pressed at each of `times` in turn. */
  function PressAll(items: seq<Item>, s: State, key: KeyCode, times: seq<int>): (r: State)
    requires NoDup(s.selected) && FocusInRange(items, s.input, s.focused)
    ensures NoDup(r.selected) && FocusInRange(items, r.input, r.focused)
    decreases |times|
  {
    if |times| == 0 then s
    else PressAll(items, KeyDown(items, s, key, times[0]).state, key, times[1..])
  }

  /** Arrow presses that all fall inside the debounce window change nothing. */
  lemma {:induction false} DebouncedPressesIgnored(items: seq<Item>, s: State, key: KeyCode, times: seq<int>)
    requires NoDup(s.selected) && FocusInRange(items, s.input, s.focused)
    requires !s.listHidden && (key == ArrowUp || key == ArrowDown)
    requires forall k :: 0 <= k < |times| ==> times[k] - s.lastTime < DebounceMs
    ensures PressAll(items, s, key, times) == s
  {
    if |times| > 0 {
      ArrowWithinDebounceIgnored(items, s, key, times[0]);
      DebouncedPressesIgnored(items, s, key, times[1..]);
    }
  }

  /** Down pressed repeatedly within 100 ms of the first press moves the focus at
      most one row: the first press is applied, the rest are debounced. */
  lemma RapidDownPressesMoveOnce(items: seq<Item>, s: State, times: seq<int>)
    requires NoDup(s.selected) && FocusInRange(items, s.input, s.focused)
    requires !s.listHidden && |times| > 0
    requires times[0] - s.lastTime >= DebounceMs
    requires forall k :: 0 < k < |times| ==> times[k] < times[0] + DebounceMs
    ensures var r := PressAll(items, s, ArrowDown, times);
            && r.selected == s.selected && r.lastTime == times[0]
            && r.focused == if s.focused + 1 < |FilterItems(items, s.input)| then s.focused + 1 else s.focused
  {
    ArrowMovesFocus(items, s, ArrowDown, times[0]);
    var first := KeyDown(items, s, ArrowDown, times[0]).state;
    DebouncedPressesIgnored(items, first, ArrowDown, times[1..]);
  }
}
