/**
 * The `Select` component: a single-select dropdown. Its state slots (`isOpen`,
 * `selectedIndex`, `highlightedIndex`, `overlayTop`, the option handles) are the fields of a
 * class; its props (`options`, `label`, whether `onOptionSelect` was supplied) are constants;
 * each event handler and effect is a method whose `modifies` clause names the slots it sets,
 * so every other slot is left unchanged. Calls of the caller's `onOptionSelect` observer are
 * recorded in the ghost log `notifications`.
 */
module SelectComponent {
  import opened Optional
  import opened Keys
  import opened Navigation
  import opened OptionProps
  import opened Focus

  /** The trigger text when no `label` prop is given and nothing is selected. */
  const DefaultLabel := "Select option"

  /** The gap between the bottom of the trigger and the top of the overlay. */
  const OverlayGap := 10

  /** One call of `onOptionSelect(option, optionIndex)`. */
  datatype Notification = Notification(option: SelectOption, index: nat)

  /** The listbox rendered while the overlay is open: its top offset and one row per option. */
  datatype Listbox = Listbox(top: int, rows: seq<OptionRow>)

  class Select {
    const options: seq<SelectOption>
    const fallbackLabel: string
    const hasObserver: bool

    var isOpen: bool
    var selectedIndex: Option<nat>
    var highlightedIndex: Option<nat>
    var overlayTop: int
    var optionRefs: seq<Handle>
    var refGeneration: nat
    ghost var notifications: seq<Notification>

    /** The selection is an option; the highlight is an option, or 0 when the trigger seeded
        it over an empty list; the handles are the current generation, one per slot, and
        either not made yet or one per option; every observer call names an option by its
        own index. */
    ghost predicate Valid()
      reads this
    {
      InRange(selectedIndex, |options|) &&
      (InRange(highlightedIndex, |options|) || highlightedIndex == Some(0)) &&
      (optionRefs == [] || |optionRefs| == |options|) &&
      (forall i :: 0 <= i < |optionRefs| ==> optionRefs[i] == Handle(refGeneration, i)) &&
      (!hasObserver ==> notifications == []) &&
      (forall j :: 0 <= j < |notifications| ==>
        notifications[j].index < |options| &&
        notifications[j].option == options[notifications[j].index])
    }

    /** The first render: props with their defaults (`options = []`,
        `label = 'Select option'`), closed, nothing selected or highlighted, no handles. */
    constructor (options: Option<seq<SelectOption>>, labelProp: Option<string>, hasObserver: bool)
      ensures Valid()
      ensures this.options == options.GetOr([]) && this.hasObserver == hasObserver
      ensures !isOpen && selectedIndex == None && highlightedIndex == None
      ensures overlayTop == 0 && optionRefs == [] && notifications == []
      ensures TriggerText() == labelProp.GetOr(DefaultLabel)
      ensures Overlay() == None
    {
      this.options := options.GetOr([]);
      this.fallbackLabel := labelProp.GetOr(DefaultLabel);
      this.hasObserver := hasObserver;
      isOpen := false;
      selectedIndex := None;
      highlightedIndex := None;
      overlayTop := 0;
      optionRefs := [];
      refGeneration := 0;
      notifications := [];
    }

    /** The text on the trigger: the selected option's label, else the fallback label. */
    function TriggerText(): (t: string)
      reads this
      requires Valid()
      ensures selectedIndex.Some? ==> t == options[selectedIndex.value].caption
      ensures selectedIndex.None? ==> t == fallbackLabel
      ensures t == fallbackLabel || exists i :: 0 <= i < |options| && t == options[i].caption
    {
      match selectedIndex
      case None => fallbackLabel
      case Some(i) => options[i].caption
    }

    /** The listbox, present exactly while the overlay is open, with a row per option (none
        for an empty list). */
    function Overlay(): (r: Option<Listbox>)
      reads this
      ensures r.Some? <==> isOpen
      ensures r.Some? ==> r.value.top == overlayTop && |r.value.rows| == |options|
    {
      if isOpen
      then Some(Listbox(overlayTop, Rows(options, selectedIndex, highlightedIndex, optionRefs)))
      else None
    }

    /** The option the focus effect focuses after this render, given the previous render's
        open flag and highlight: always an existing option, the highlighted one, and only
        while open. */
    function FocusRequest(before: (bool, Option<nat>), attached: set<Handle>): (r: Option<nat>)
      reads this
      requires Valid()
      ensures r.Some? ==> isOpen && r == highlightedIndex && r.value < |options|
      ensures before == (isOpen, highlightedIndex) ==> r.None?
    {
      FocusEffect(before, isOpen, highlightedIndex, optionRefs, attached)
    }

    /** `onLabelClick`: toggles the overlay and nothing else. */
    method LabelClick()
      requires Valid()
      modifies this`isOpen
      ensures Valid()
      ensures isOpen == !old(isOpen) && isOpen == OpenAfterClicks(old(isOpen), 1)
    {
      isOpen := !isOpen;
    }

    /** `onButtonKeyDown`: Space, ArrowUp and ArrowDown open the overlay; Space and ArrowDown
        also highlight the first option, ArrowUp keeps the highlight; other keys change
        nothing. */
    method ButtonKeyDown(key: Key)
      requires Valid()
      modifies this`isOpen, this`highlightedIndex
      ensures Valid()
      ensures key == Space || key == ArrowDown ==> isOpen && highlightedIndex == Some(0)
      ensures key == ArrowUp ==> isOpen && highlightedIndex == old(highlightedIndex)
      ensures key !in {Space, ArrowUp, ArrowDown} ==> unchanged(this)
    {
      if key == Space || key == ArrowUp || key == ArrowDown {
        isOpen := true;
        if key == Space || key == ArrowDown {
          highlightedIndex := Some(0);
        }
      }
    }

    /** `onOptionSelected`: notifies the observer, if there is one, exactly once with the
        option and its index, then selects it and closes the overlay; the highlight stays. */
    method OptionSelected(index: nat)
      requires Valid() && index < |options|
      modifies this`selectedIndex, this`isOpen, this`notifications
      ensures Valid()
      ensures notifications ==
        old(notifications) + (if hasObserver then [Notification(options[index], index)] else [])
      ensures selectedIndex == Some(index) && !isOpen
      ensures TriggerText() == options[index].caption
    {
      if hasObserver {
        notifications := notifications + [Notification(options[index], index)];
      }
      selectedIndex := Some(index);
      isOpen := false;
    }

    /** `onOptionKeyDown`, bound on every rendered option (so the list is not empty): Escape
        closes and stops; ArrowDown and ArrowUp move the highlight cyclically; Enter commits the
        highlighted option, and with nothing highlighted does nothing; other keys change
        nothing. */
    method OptionKeyDown(key: Key)
      requires Valid() && |options| > 0
      modifies this`isOpen, this`highlightedIndex, this`selectedIndex, this`notifications
      ensures Valid()
      ensures key == Escape ==>
        !isOpen && unchanged(this`highlightedIndex, this`selectedIndex, this`notifications)
      ensures key == ArrowDown ==>
        highlightedIndex == Some(NextIndex(old(highlightedIndex), |options|)) &&
        unchanged(this`isOpen, this`selectedIndex, this`notifications)
      ensures key == ArrowUp ==>
        highlightedIndex.Some? &&
        highlightedIndex.value == PrevIndex(old(highlightedIndex), |options|) &&
        unchanged(this`isOpen, this`selectedIndex, this`notifications)
      ensures key == Enter && old(highlightedIndex).Some? ==>
        var i := old(highlightedIndex).value;
        i < |options| &&
        notifications ==
          old(notifications) + (if hasObserver then [Notification(options[i], i)] else []) &&
        selectedIndex == Some(i) && !isOpen && unchanged(this`highlightedIndex)
      ensures key == Enter && old(highlightedIndex).None? ==> unchanged(this)
      ensures key == Space || key == Other ==> unchanged(this)
    {
      if key == Escape {
        isOpen := false;
        return;
      }
      if key == ArrowDown {
        highlightedIndex := Some(NextIndex(highlightedIndex, |options|));
      }
      if key == ArrowUp {
        var prev := PrevIndex(highlightedIndex, |options|);
        highlightedIndex := Some(prev as nat);
      }
      if key == Enter {
        match highlightedIndex
        case None =>
        case Some(i) => OptionSelected(i);
      }
    }

    /** `onMouseEnter` of option `index`: highlights it. */
    method OptionMouseEnter(index: nat)
      requires Valid() && index < |options|
      modifies this`highlightedIndex
      ensures Valid()
      ensures highlightedIndex == Some(index)
    {
      highlightedIndex := Some(index);
    }

    /** `onMouseLeave` of any option: clears the highlight. */
    method OptionMouseLeave()
      requires Valid()
      modifies this`highlightedIndex
      ensures Valid()
      ensures highlightedIndex == None
    {
      highlightedIndex := None;
    }

    /** The effect on the trigger's measured height: the overlay sits the gap below the
        trigger; a missing trigger element counts as height 0. */
    method MeasureTrigger(triggerHeight: Option<nat>)
      requires Valid()
      modifies this`overlayTop
      ensures Valid()
      ensures overlayTop == triggerHeight.GetOr(0) + OverlayGap
    {
      overlayTop := triggerHeight.GetOr(0) + OverlayGap;
    }

    /** The effect on the options' length: a fresh handle per option when the handle list does
        not match the options, and the very same handles otherwise, so focus is kept. */
    method SyncOptionRefs()
      requires Valid()
      modifies this`optionRefs, this`refGeneration
      ensures Valid()
      ensures |optionRefs| == |options|
      ensures forall i :: 0 <= i < |optionRefs| ==> optionRefs[i].slot == i
      ensures old(|optionRefs|) == |options| ==> optionRefs == old(optionRefs)
      ensures old(|optionRefs|) != |options| ==>
        forall i :: 0 <= i < |optionRefs| ==> optionRefs[i] !in old(optionRefs)
    {
      if |optionRefs| != |options| {
        var generation := refGeneration + 1;
        optionRefs := seq(|options|, i requires 0 <= i < |options| => Handle(generation, i));
        refGeneration := generation;
      }
    }
  }

  /** Whether the overlay is open after `clicks` clicks on the trigger, starting from `open`. */
  function OpenAfterClicks(open: bool, clicks: nat): (isOpen: bool) {
    if clicks == 0 then open else !OpenAfterClicks(open, clicks - 1)
  }

  /** From closed, an odd number of trigger clicks leaves the overlay open and an even number
      leaves it closed. */
  lemma {:induction false} ClickParity(clicks: nat)
    ensures OpenAfterClicks(false, clicks) <==> clicks % 2 == 1
  {
    if clicks > 0 {
      ClickParity(clicks - 1);
    }
  }

  /** What the observer receives and what the state becomes when Enter is pressed on an option,
      as Select.tsx writes it: the commit runs with `options[highlightedIndex!]` and
      `highlightedIndex!` whether or not anything is highlighted. */
  datatype EnterEffect = EnterEffect(
    observerArgs: Option<(Option<SelectOption>, Option<nat>)>,
    selected: Option<nat>,
    isOpen: bool)

  /** Enter on an option as written: the observer (if supplied) gets the indexed option, which
      is missing when nothing is highlighted, and the selection becomes the highlight. */
  function EnterAsWritten(options: seq<SelectOption>, hasObserver: bool,
                          highlighted: Option<nat>): (e: EnterEffect)
    ensures !e.isOpen && e.selected == highlighted
    ensures e.observerArgs.Some? <==> hasObserver
    ensures hasObserver && highlighted.None? ==> e.observerArgs == Some((None, None))
    ensures hasObserver && highlighted.Some? && highlighted.value < |options| ==>
      e.observerArgs == Some((Some(options[highlighted.value]), highlighted))
  {
    var option :=
      if highlighted.Some? && highlighted.value < |options| then Some(options[highlighted.value])
      else None;
    EnterEffect(if hasObserver then Some((option, highlighted)) else None, highlighted, false)
  }

  /** The discrepancy: as written, Enter with nothing highlighted (reachable by hovering an
      option and leaving it, focus staying on the option) calls the observer without an option
      and drops a selection that was there. */
  lemma EnterWithoutHighlightAsWritten(options: seq<SelectOption>)
    ensures var e := EnterAsWritten(options, true, None);
      e.observerArgs == Some((None, None)) && e.selected == None && !e.isOpen
  {
  }
}
