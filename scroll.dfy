/** `scrollTo`, the offset arithmetic run after an arrow key moves the focus. All
    quantities are pixels within the list: `scrollTop` is the list's current scroll
    offset, `listHeight` its visible height, `offsetTop` and `rowHeight` the focused
    row's top and height. */
module Scroll {

  /** The row lies entirely inside the window that starts at `top`. */
  predicate RowVisible(top: int, listHeight: int, offsetTop: int, rowHeight: int) {
    top <= offsetTop && offsetTop + rowHeight <= top + listHeight
  }

  /** The `list.scroll({ top })` calls `scrollTo` makes, in order. Both tests read the
      original `scrollTop`, so a row taller than the list and straddling the window gets
      both calls. */
  function ScrollCalls(scrollTop: int, listHeight: int, offsetTop: int, rowHeight: int): (r: seq<int>)
    ensures |r| == (if offsetTop < scrollTop then 1 else 0)
                   + (if offsetTop + rowHeight > scrollTop + listHeight then 1 else 0)
    ensures forall k :: 0 <= k < |r| ==> r[k] == offsetTop || r[k] == offsetTop + rowHeight
    ensures r == [] <==> RowVisible(scrollTop, listHeight, offsetTop, rowHeight)
    ensures offsetTop < scrollTop ==> r[0] == offsetTop
    ensures offsetTop + rowHeight > scrollTop + listHeight ==> r[|r| - 1] == offsetTop + rowHeight
  {
    (if offsetTop < scrollTop then [offsetTop] else [])
    + (if offsetTop + rowHeight > scrollTop + listHeight then [offsetTop + rowHeight] else [])
  }

  /** The scroll offset after the calls: the last one requested, if any. */
  function FinalTop(scrollTop: int, calls: seq<int>): int {
    if calls == [] then scrollTop else calls[|calls| - 1]
  }

  /** As written, a row whose bottom is below the window is scrolled to by putting the
      window's top at the row's bottom, which leaves the whole row above the window. */
  lemma ScrollDownHidesRow(scrollTop: int, listHeight: int, offsetTop: int, rowHeight: int)
    requires scrollTop <= offsetTop && 0 < rowHeight
    requires offsetTop + rowHeight > scrollTop + listHeight
    ensures var top := FinalTop(scrollTop, ScrollCalls(scrollTop, listHeight, offsetTop, rowHeight));
            top == offsetTop + rowHeight && !RowVisible(top, listHeight, offsetTop, rowHeight)
  {
  }

  /** The concrete case: a 30-pixel row at 90 in a 100-pixel list at offset 0. */
  lemma ScrollDownHidesRowExample()
    ensures ScrollCalls(0, 100, 90, 30) == [120]
    ensures !RowVisible(120, 100, 90, 30) && RowVisible(20, 100, 90, 30)
  {
  }

  function Dist(a: int, b: int): nat {
    if a <= b then b - a else a - b
  }

  /** The evidently intended `scrollTo`: a row above the window is brought to its top,
      a row below it to its bottom (`maxOffset - listHeight`), a visible row stays put. */
  function ScrollIntoView(scrollTop: int, listHeight: int, offsetTop: int, rowHeight: int): (t: int)
    ensures 0 <= rowHeight <= listHeight ==> RowVisible(t, listHeight, offsetTop, rowHeight)
    ensures RowVisible(scrollTop, listHeight, offsetTop, rowHeight) ==> t == scrollTop
    ensures forall u :: RowVisible(u, listHeight, offsetTop, rowHeight) ==>
              Dist(t, scrollTop) <= Dist(u, scrollTop)
  {
    if offsetTop < scrollTop then offsetTop
    else if offsetTop + rowHeight > scrollTop + listHeight then offsetTop + rowHeight - listHeight
    else scrollTop
  }
}
