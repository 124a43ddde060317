/** The update `selectItem` hands to `setCurrentValues`: toggling one id in the
    selection and deciding whether `onChange` is called. */
module Selection {
  import opened Options
  import opened OrderedSet

  /** The new selection and, when `onChange` is called, the ids it receives. */
  datatype Toggled = Toggled(selection: seq<string>, emitted: Option<seq<string>>)

  /** An id that is not selected is added at the end and nothing is emitted; a selected
      id is deleted and `onChange` receives `Array.from` of what remains. */
  function Toggle(selected: seq<string>, id: string): (r: Toggled)
    requires NoDup(selected)
    ensures NoDup(r.selection)
    ensures forall x :: x in r.selection <==> if x == id then id !in selected else x in selected
    ensures |r.selection| == if id in selected then |selected| - 1 else |selected| + 1
    ensures r.emitted.Some? <==> id in selected
    ensures r.emitted.Some? ==> r.emitted.value == r.selection && IsSubseq(r.selection, selected)
    ensures r.emitted.None? ==> r.selection[..|selected|] == selected
  {
    if id !in selected then Toggled(Add(selected, id), None)
    else
      var rest := Delete(selected, id);
      Toggled(rest, Some(rest))
  }

  /** Removing the id at position `k` emits exactly the ids before and after it, in
      their insertion order. */
  lemma RemovalEmitsRemainingInOrder(selected: seq<string>, k: nat)
    requires NoDup(selected) && k < |selected|
    ensures Toggle(selected, selected[k]).emitted == Some(selected[..k] + selected[k + 1..])
  {
    DeleteAt(selected, k);
  }

  /** Toggling an id twice restores the membership of every id; when the id started
      unselected the selection is restored exactly, order included, and only the second
      toggle emits. */
  lemma ToggleTwice(selected: seq<string>, id: string)
    requires NoDup(selected)
    ensures var once := Toggle(selected, id);
            var twice := Toggle(once.selection, id);
            && (forall x :: x in twice.selection <==> x in selected)
            && (id !in selected ==> twice.selection == selected && once.emitted == None
                                    && twice.emitted == Some(selected))
  {
    if id !in selected {
      DeleteAdded(selected, id);
    }
  }
}
