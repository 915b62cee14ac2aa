/**
 * The focus effect of the overlay. After a render in which `isOpen` or the highlighted index
 * changed, the component moves input focus to the element of the highlighted option, provided
 * the overlay is open and that option's handle is attached to an element. Which handles are
 * attached is DOM state, so the model takes it as an input; the effect itself becomes the
 * index it asks to focus.
 */
module Focus {
  import opened Optional
  import opened OptionProps

  /** The option the focus effect focuses, looking at the state alone. */
  function FocusTarget(isOpen: bool, highlighted: Option<nat>, refs: seq<Handle>,
                       attached: set<Handle>): (r: Option<nat>)
    ensures r.Some? ==> isOpen && r == highlighted && r.value < |refs| && refs[r.value] in attached
    ensures r.None? && isOpen && highlighted.Some? ==>
      highlighted.value >= |refs| || refs[highlighted.value] !in attached
  {
    if isOpen && highlighted.Some? && highlighted.value < |refs| && refs[highlighted.value] in attached
    then highlighted
    else None
  }

  /** The focus request after a render, given the open flag and highlight of the previous
      render: the effect only runs when one of them changed. */
  function FocusEffect(before: (bool, Option<nat>), isOpen: bool, highlighted: Option<nat>,
                       refs: seq<Handle>, attached: set<Handle>): (r: Option<nat>)
    ensures before == (isOpen, highlighted) ==> r.None?
    ensures r.Some? ==> isOpen && r == highlighted && r.value < |refs| && refs[r.value] in attached
  {
    if before == (isOpen, highlighted) then None
    else FocusTarget(isOpen, highlighted, refs, attached)
  }

  /** Opening the overlay onto a highlighted option whose handle is attached focuses it, and
      clearing the highlight or closing the overlay never moves focus. */
  lemma FocusFollowsHighlight(before: (bool, Option<nat>), highlighted: Option<nat>,
                              refs: seq<Handle>, attached: set<Handle>)
    ensures before != (true, highlighted) && highlighted.Some? &&
            highlighted.value < |refs| && refs[highlighted.value] in attached ==>
      FocusEffect(before, true, highlighted, refs, attached) == highlighted
    ensures FocusEffect(before, true, None, refs, attached) == None
    ensures FocusEffect(before, false, highlighted, refs, attached) == None
  {
  }
}
