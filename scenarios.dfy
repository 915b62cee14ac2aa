/**
 * Interaction scenarios checked against the class's contracts alone: each method builds a
 * fresh select, drives it through the handlers and returns what a user would observe. All
 * but the last come from Select.spec.tsx.
 */
module SelectScenarios {
  import opened Optional
  import opened Keys
  import opened OptionProps
  import opened SelectComponent

  /** The options A, B, C. */
  function ThreeOptions(): seq<SelectOption> {
    [SelectOption("A", "a"), SelectOption("B", "b"), SelectOption("C", "c")]
  }

  /** Open with ArrowDown on the trigger, then ArrowDown, ArrowUp and ArrowUp on the options:
      the highlight goes 0, 1, 0 and wraps to 2. */
  method KeyboardWalk() returns (highlights: seq<Option<nat>>)
    ensures highlights == [Some(0), Some(1), Some(0), Some(2)]
  {
    var s := new Select(Some(ThreeOptions()), None, false);
    s.ButtonKeyDown(ArrowDown);
    assert s.isOpen;
    highlights := [s.highlightedIndex];
    s.OptionKeyDown(ArrowDown);
    highlights := highlights + [s.highlightedIndex];
    s.OptionKeyDown(ArrowUp);
    highlights := highlights + [s.highlightedIndex];
    s.OptionKeyDown(ArrowUp);
    highlights := highlights + [s.highlightedIndex];
  }

  /** Click the trigger, click option B: the observer is called once with (B, 1), the overlay
      is gone and the trigger shows "B". */
  method ClickToSelect() returns (shown: bool, text: string)
    ensures !shown && text == "B"
  {
    var s := new Select(Some(ThreeOptions()), None, true);
    s.LabelClick();
    s.OptionSelected(1);
    assert s.notifications == [Notification(SelectOption("B", "b"), 1)];
    shown := s.Overlay().Some?;
    text := s.TriggerText();
  }

  /** Three quick clicks on the trigger leave the listbox shown. */
  method RapidOpenClose() returns (shown: bool)
    ensures shown
  {
    var s := new Select(Some(ThreeOptions()), None, false);
    s.LabelClick();
    s.LabelClick();
    s.LabelClick();
    shown := s.Overlay().Some?;
  }

  /** Escape on a focused option closes the overlay; the highlight and the selection stay. */
  method EscapeKeepsState() returns (shown: bool, selected: Option<nat>, highlighted: Option<nat>)
    ensures !shown && selected == Some(2) && highlighted == Some(1)
  {
    var s := new Select(Some(ThreeOptions()), None, false);
    s.LabelClick();
    s.OptionSelected(2);
    s.ButtonKeyDown(Space);
    s.OptionKeyDown(ArrowDown);
    s.OptionKeyDown(Escape);
    shown := s.Overlay().Some?;
    selected := s.selectedIndex;
    highlighted := s.highlightedIndex;
  }

  /** With no options, the default label shows, and opening gives a listbox with no rows. */
  method EmptyOptions() returns (text: string, shown: bool, rowCount: nat)
    ensures text == "Select option" && shown && rowCount == 0
  {
    var s := new Select(None, None, false);
    text := s.TriggerText();
    s.LabelClick();
    var listbox := s.Overlay();
    shown := listbox.Some?;
    assert shown;
    rowCount := |listbox.value.rows|;
  }

  /** Hover option B and leave it, then press Enter on the option that keeps the focus:
      nothing is highlighted, so in this model nothing is committed and the overlay stays
      open. This is the model's decision, not in Select.spec.tsx: the source commits here
      (see `EnterAsWritten`). */
  method EnterAfterMouseLeave() returns (shown: bool, selected: Option<nat>)
    ensures shown && selected == None
  {
    var s := new Select(Some(ThreeOptions()), None, true);
    s.ButtonKeyDown(ArrowDown);
    s.OptionMouseEnter(1);
    s.OptionMouseLeave();
    s.OptionKeyDown(Enter);
    assert s.notifications == [];
    shown := s.Overlay().Some?;
    selected := s.selectedIndex;
  }
}
