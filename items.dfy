/** The widget's items and the two derivations made from them on every render: the
    valid initial ids (`validValues`, `defaultValues`) and the visible list
    (`filterItems`). */
module Items {
  import opened Options
  import opened OrderedSet

  /** An option of the widget: a unique id and the text shown for it. */
  datatype Item = Item(id: string, title: string)

  /** `items.find((item) => id === item.id)`: the first item with that id, if any. */
  function Find(items: seq<Item>, id: string): (r: Option<Item>)
    ensures r.Some? <==> exists i :: 0 <= i < |items| && items[i].id == id
    ensures r.Some? ==> r.value in items && r.value.id == id
  {
    if |items| == 0 then None
    else if items[0].id == id then Some(items[0])
    else
      var r := Find(items[1..], id);
      assert forall i :: 0 < i < |items| ==> items[i] == items[1..][i - 1];
      r
  }

  /** `s` starts with `t`. */
  predicate StartsWith(s: string, t: string) {
    |t| <= |s| && s[..|t|] == t
  }

  /** `t` occurs in `s` starting at position `i`. */
  predicate OccursAt(s: string, t: string, i: nat) {
    i + |t| <= |s| && s[i..i + |t|] == t
  }

  /** `s.includes(t)`: a case-sensitive substring test, true for the empty `t`. */
  predicate Contains(s: string, t: string)
    decreases |s|
  {
    StartsWith(s, t) || (|s| > 0 && Contains(s[1..], t))
  }

  /** `Contains` agrees with the definition of a substring by position. */
  lemma {:induction false} ContainsIffOccurs(s: string, t: string)
    ensures Contains(s, t) <==> exists i: nat :: OccursAt(s, t, i)
  {
    if StartsWith(s, t) {
      assert OccursAt(s, t, 0);
    } else if |s| > 0 {
      ContainsIffOccurs(s[1..], t);
      if Contains(s[1..], t) {
        var i: nat :| OccursAt(s[1..], t, i);
        assert s[1..][i..i + |t|] == s[i + 1..i + 1 + |t|];
        assert OccursAt(s, t, i + 1);
      } else {
        forall i: nat ensures !OccursAt(s, t, i) {
          if i == 0 {
            assert |t| <= |s| ==> s[0..|t|] == s[..|t|];
          } else if i + |t| <= |s| {
            assert s[1..][i - 1..i - 1 + |t|] == s[i..i + |t|];
            assert !OccursAt(s[1..], t, i - 1);
          }
        }
      }
    } else {
      forall i: nat ensures !OccursAt(s, t, i) {
        assert s[0..0] == s[..0];
      }
    }
  }

  /** Every string includes the empty string. */
  lemma ContainsEmpty(s: string)
    ensures Contains(s, "")
  {
    assert StartsWith(s, "");
  }

  /** A title no longer than the text includes it exactly when the two are equal. */
  lemma {:induction false} ContainsShort(s: string, t: string)
    requires |s| <= |t|
    ensures Contains(s, t) <==> s == t
  {
    if |s| > 0 && Contains(s[1..], t) {
      ContainsShort(s[1..], t);
    }
  }

  /** `items.filter(({ title }) => title.includes(text))`. */
  function FilterByTitle(items: seq<Item>, text: string): (r: seq<Item>)
    ensures forall it :: it in r <==> it in items && Contains(it.title, text)
    ensures IsSubseq(r, items)
  {
    if |items| == 0 then []
    else
      var rest := FilterByTitle(items[1..], text);
      if Contains(items[0].title, text) then [items[0]] + rest else rest
  }

  /** `filterItems()`: every item while the input is empty, otherwise the items whose
      title includes the input, in their original order. */
  function FilterItems(items: seq<Item>, input: string): (r: seq<Item>)
    ensures input == "" ==> r == items
    ensures forall it :: it in r <==> it in items && Contains(it.title, input)
    ensures IsSubseq(r, items)
  {
    if input == "" then
      assert forall it :: it in items ==> Contains(it.title, input) by {
        forall it | it in items { ContainsEmpty(it.title); }
      }
      assert IsSubseq(items, items) by { SubseqRefl(items); }
      items
    else FilterByTitle(items, input)
  }

  /** The empty-input shortcut returns what filtering by the empty text would. */
  lemma {:induction false} FilterByEmptyIsIdentity(items: seq<Item>)
    ensures FilterByTitle(items, "") == items
  {
    if |items| > 0 {
      FilterByEmptyIsIdentity(items[1..]);
      ContainsEmpty(items[0].title);
    }
  }

  /** Filtering an already filtered list with the same text changes nothing. */
  lemma {:induction false} FilterByTitleIdempotent(items: seq<Item>, text: string)
    ensures FilterByTitle(FilterByTitle(items, text), text) == FilterByTitle(items, text)
  {
    if |items| > 0 {
      FilterByTitleIdempotent(items[1..], text);
      var rest := FilterByTitle(items[1..], text);
      if Contains(items[0].title, text) {
        assert ([items[0]] + rest)[1..] == rest;
      }
    }
  }

  /** `filterItems` is idempotent. */
  lemma FilterItemsIdempotent(items: seq<Item>, input: string)
    ensures FilterItems(FilterItems(items, input), input) == FilterItems(items, input)
  {
    if input != "" { FilterByTitleIdempotent(items, input); }
  }

  /** `value.filter((id) => items.find(...))`: the ids that name some item, in the
      order of `value`, repeats included. */
  function ValidValues(value: seq<string>, items: seq<Item>): (r: seq<string>)
    ensures forall id :: id in r <==> id in value && Find(items, id).Some?
    ensures forall id :: multiset(r)[id] == if Find(items, id).Some? then multiset(value)[id] else 0
    ensures IsSubseq(r, value)
  {
    if |value| == 0 then []
    else
      var rest := ValidValues(value[1..], items);
      assert value == [value[0]] + value[1..];
      if Find(items, value[0]).Some? then [value[0]] + rest else rest
  }

  /** Keeping only the ids that name an item does not reorder the first occurrences
      of the ids it keeps. */
  lemma {:induction false} ValidValuesFirstIndex(value: seq<string>, items: seq<Item>, x: string, y: string)
    requires x in ValidValues(value, items) && y in ValidValues(value, items)
    ensures var r := ValidValues(value, items);
            FirstIndex(r, x) < FirstIndex(r, y) <==> FirstIndex(value, x) < FirstIndex(value, y)
  {
    var rest := ValidValues(value[1..], items);
    if x != value[0] && y != value[0] {
      ValidValuesFirstIndex(value[1..], items, x, y);
      if Find(items, value[0]).Some? {
        assert ([value[0]] + rest)[1..] == rest;
      }
    }
  }

  /** `new Set(validValues)`: the initial selection. */
  function DefaultValues(value: seq<string>, items: seq<Item>): (r: seq<string>)
    ensures NoDup(r)
    ensures forall id :: id in r <==> id in value && Find(items, id).Some?
    ensures IsSubseq(r, ValidValues(value, items))
    ensures forall i, j :: 0 <= i < j < |r| ==> FirstIndex(value, r[i]) < FirstIndex(value, r[j])
  {
    var valid := ValidValues(value, items);
    var r := FromSeq(valid);
    assert forall i, j :: 0 <= i < j < |r| ==> FirstIndex(value, r[i]) < FirstIndex(value, r[j]) by {
      forall i, j | 0 <= i < j < |r| ensures FirstIndex(value, r[i]) < FirstIndex(value, r[j]) {
        ValidValuesFirstIndex(value, items, r[i], r[j]);
      }
    }
    r
  }

  /** When every id in `value` names an item and none repeats, the initial selection
      is `value` itself, in its order. */
  lemma {:induction false} ValidValuesKeepsAll(value: seq<string>, items: seq<Item>)
    requires forall id :: id in value ==> Find(items, id).Some?
    ensures ValidValues(value, items) == value
  {
    if |value| > 0 {
      assert value[0] in value;
      ValidValuesKeepsAll(value[1..], items);
    }
  }

  /** When `value` has no repeats, the initial selection is `validValues` itself: the
      ids that name an item, in `value` order, with the unknown ones dropped. */
  lemma DefaultValuesKeepsValueOrder(value: seq<string>, items: seq<Item>)
    requires NoDup(value)
    ensures DefaultValues(value, items) == ValidValues(value, items)
  {
    SubseqNoDup(ValidValues(value, items), value);
    FromSeqOfNoDup(ValidValues(value, items));
  }
}
