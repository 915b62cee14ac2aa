# Select dropdown, modelled in Dafny

A model of the `Select` component of the design-system library: a single-select dropdown
with a trigger button, an overlay listbox of options, keyboard navigation with wrap-around,
a mouse/keyboard highlight separate from the committed selection, an optional
`onOptionSelect` observer, and a per-option "recommended props" record that custom renderers
merge their own overrides into.

- `optional.dfy` — `Option` (JavaScript `null`/`undefined`) and the "absent or in range" index test.
- `keys.dfy` — the keys the handlers act on, as a closed enumeration with its `event.code` table.
- `navigation.dfy` — `getPrevOptionIndex` / `getNextOptionIndex` and the cyclic walk they make.
- `option_props.dfy` — options, focus handles, the overlay rows, and the recommended props
  (`map<string, PropValue>`, where map union is JavaScript's object spread).
- `focus.dfy` — the focus effect as the index it asks to focus.
- `select.dfy` — the component as a class: props are constants, state slots are fields,
  handlers and effects are methods whose `modifies` clause names the slots they set.
  Observer calls are recorded in the ghost log `notifications`.
- `scenarios.dfy` — interaction scenarios checked against the handlers' contracts. All but
  one come from the component's test file. `EnterAfterMouseLeave` is not among them: it
  exercises the model's no-op for Enter with nothing highlighted, which differs from what the
  source does.

Decisions:
- Enter with nothing highlighted is an explicit no-op (`OptionKeyDown`). The source instead
  commits `options[null]` and `null` (see Findings).
- `OptionKeyDown` requires a non-empty option list. Its listener is bound only on rendered
  option elements, and there are none for an empty list.
- The option `label` field is `caption` in the model, because `label` is a Dafny keyword.
  The fallback `label` prop is `fallbackLabel`.
- The code does not reset the highlight when the overlay closes.
- ArrowDown then ArrowUp returns to the starting option for every non-empty list, a
  one-option list included (`PrevNextInverse`).

## Model

| member | source | states |
|---|---|---|
| Keys.KeyOfCode | libs/react/src/lib/molecules/select/Select.tsx:5-30 | a code maps to a key exactly when it is that key's table string; every other code is `Other` |
| Keys.CodeRoundTrip | libs/react/src/lib/molecules/select/Select.tsx:5-30 | the key table and the enumeration agree: reading back a key's code gives the key |
| Navigation.PrevIndex | libs/react/src/lib/molecules/select/Select.tsx:50-61 | never below -1; in a non-empty list, from no highlight or a valid index, the result is a valid index |
| Navigation.NextIndex | libs/react/src/lib/molecules/select/Select.tsx:63-74 | in a non-empty list, from no highlight or a valid index, the result is a valid index |
| Navigation.FirstNavigationStartsAtZero | libs/react/src/lib/molecules/select/Select.tsx:50-74 | with nothing highlighted, both directions go to the first option |
| Navigation.NextIsSuccessorModulo | libs/react/src/lib/molecules/select/Select.tsx:63-74 | ArrowDown is `(i + 1) % n`, so the last option wraps to the first |
| Navigation.PrevIsPredecessorModulo | libs/react/src/lib/molecules/select/Select.tsx:50-61 | ArrowUp is `(i + n - 1) % n`, so the first option wraps to the last |
| Navigation.PrevNextInverse | libs/react/src/lib/molecules/select/Select.tsx:50-74 | prev and next are mutual inverses on every valid index |
| Navigation.NextAfterAdd | libs/react/src/lib/molecules/select/Select.tsx:63-74 | a+b ArrowDown presses equal a presses followed by b presses |
| Navigation.NextAfterMovesDown | libs/react/src/lib/molecules/select/Select.tsx:63-74 | short of the list's end, k presses move the highlight k options down |
| Navigation.FullCycleReturns | libs/react/src/lib/molecules/select/Select.tsx:63-74 | n ArrowDown presses in a list of n options return to the start |
| OptionProps.Rows | libs/react/src/lib/molecules/select/Select.tsx:199-203 | one row per option, in order; a row is selected / highlighted exactly when its index is the selection / highlight; its handle is the index's handle when one exists |
| OptionProps.RecommendedProps | libs/react/src/lib/molecules/select/Select.tsx:207-223 | shallow merge: every overridden key takes the override, every other recommended key keeps its default, no other key appears |
| OptionProps.RecommendedPropsOfRow | libs/react/src/lib/molecules/select/Select.tsx:204-223 | role `menuitemradio`; aria-label is the option's label; aria-checked is true iff selected, else absent; tabIndex -1 iff highlighted, else 0; listeners highlight, clear and commit this index |
| OptionProps.RowsSelectAtMostOne | libs/react/src/lib/molecules/select/Select.tsx:200-201 | at most one row is selected and at most one highlighted; a valid selection's row is selected |
| Focus.FocusTarget | libs/react/src/lib/molecules/select/Select.tsx:135-139 | focus goes only to the highlighted index, only while open, and only when its handle exists and is attached |
| Focus.FocusEffect | libs/react/src/lib/molecules/select/Select.tsx:134-141 | no focus when neither the open flag nor the highlight changed; otherwise as the focus target |
| Focus.FocusFollowsHighlight | libs/react/src/lib/molecules/select/Select.tsx:134-141 | a changed, open, attached highlight is focused; no highlight or a closed overlay focuses nothing |
| SelectComponent.Select.constructor | libs/react/src/lib/molecules/select/Select.tsx:76-90 | defaults `options = []` and `label = 'Select option'`; starts closed with no selection, highlight or handles; trigger shows the label; no listbox |
| SelectComponent.Select.TriggerText | libs/react/src/lib/molecules/select/Select.tsx:108-111 | the trigger text (rendered at line 173) is the selected option's label when there is a selection, else the `label` prop, which defaults to 'Select option'; the constructor and `OptionSelected` pin it after mount and after a commit |
| SelectComponent.Select.Overlay | libs/react/src/lib/molecules/select/Select.tsx:193-199 | the listbox exists iff the overlay is open, sits at `overlayTop`, and has one row per option (none for an empty list) |
| SelectComponent.Select.FocusRequest | libs/react/src/lib/molecules/select/Select.tsx:134-141 | a focus request is always the highlighted, existing option while open, and never made when nothing changed |
| SelectComponent.Select.LabelClick | libs/react/src/lib/molecules/select/Select.tsx:100-102 | flips `isOpen` and changes no other slot |
| SelectComponent.ClickParity | libs/react/src/lib/molecules/select/Select.spec.tsx:355-364 | from closed, an odd number of clicks ends open and an even number ends closed |
| SelectComponent.Select.ButtonKeyDown | libs/react/src/lib/molecules/select/Select.tsx:117-128 | Space/ArrowDown open and highlight 0; ArrowUp opens and keeps the highlight; other keys change nothing |
| SelectComponent.Select.OptionSelected | libs/react/src/lib/molecules/select/Select.tsx:92-98 | observer called exactly once with (options[i], i) when supplied, never otherwise; then selected = i, closed, highlight unchanged, trigger shows options[i]'s label |
| SelectComponent.Select.OptionKeyDown | libs/react/src/lib/molecules/select/Select.tsx:143-161 | Escape only closes; ArrowDown/ArrowUp only move the highlight via next/prev; Enter commits the highlighted option and is a no-op with none; other keys change nothing |
| SelectComponent.Select.OptionMouseEnter | libs/react/src/lib/molecules/select/Select.tsx:215 | highlights option i and changes nothing else |
| SelectComponent.Select.OptionMouseLeave | libs/react/src/lib/molecules/select/Select.tsx:216 | clears the highlight and changes nothing else |
| SelectComponent.Select.MeasureTrigger | libs/react/src/lib/molecules/select/Select.tsx:104-106 | `overlayTop` becomes the trigger height (0 when missing) plus 10 |
| SelectComponent.Select.SyncOptionRefs | libs/react/src/lib/molecules/select/Select.tsx:130-132 | one handle per option, handle i for slot i; all fresh when the list did not match, the very same ones when it did |
| SelectComponent.EnterAsWritten | libs/react/src/lib/molecules/select/Select.tsx:158-159 | as written: Enter always closes and makes the highlight the selection; the observer gets (options[i], i) for a highlighted i, and no option and no index with no highlight |
| SelectComponent.EnterWithoutHighlightAsWritten | libs/react/src/lib/molecules/select/Select.tsx:158-159 | as written, Enter with no highlight notifies without an option, clears any selection and closes |
| SelectScenarios.KeyboardWalk | libs/react/src/lib/molecules/select/Select.spec.tsx:196-233 | open by ArrowDown, then ArrowDown, ArrowUp, ArrowUp: highlight 0, 1, 0, 2 |
| SelectScenarios.ClickToSelect | libs/react/src/lib/molecules/select/Select.spec.tsx:86-113 | click trigger, click B: observer gets (B, 1), overlay gone, trigger shows "B" |
| SelectScenarios.RapidOpenClose | libs/react/src/lib/molecules/select/Select.spec.tsx:355-364 | three trigger clicks leave the listbox shown |
| SelectScenarios.EscapeKeepsState | libs/react/src/lib/molecules/select/Select.spec.tsx:183-194 | Escape closes the overlay and keeps selection and highlight |
| SelectScenarios.EmptyOptions | libs/react/src/lib/molecules/select/Select.spec.tsx:324-332 | no options: default label shows, opening gives a listbox with zero rows |
| SelectScenarios.EnterAfterMouseLeave | libs/react/src/lib/molecules/select/Select.tsx:143-161 | hover and leave an option, press Enter: nothing committed, overlay stays open |

## Left out

- JSX and SVG markup, the caret and checkmark drawing, and the className strings. A row's
  classes are the two booleans "selected" and "highlighted".
- React's hook machinery: state batching, re-render scheduling, `useRef`, `createRef`.
  Each handler applies its updates at once. The effects are methods a caller runs after a
  render (`MeasureTrigger`, `SyncOptionRefs`) or functions of the state (`FocusRequest`).
- Real DOM focus, `offsetHeight` measurement, and whether a handle is attached to an element.
  The trigger height and the set of attached handles are parameters.
- `event.preventDefault()` on every keydown. It cancels the browser's default key actions,
  including the click a focused button fires on Enter or Space, which would toggle the
  overlay. The model has no key-triggered click, which is the behaviour `preventDefault`
  secures.
- The body of a caller-supplied `renderOption` and the default `<li>` rendering. Only the
  row and the props record passed to them are modelled.
- The `KeyCode` entries the handlers never compare against (Left/Right, Backspace, Tab,
  Delete, modifiers, letters). They all read as `Other`.
- A re-render with a different `options` prop. The options are fixed for the life of a
  `Select`. So a selection left out of range by a shorter list, which would break the trigger
  text, is not modelled.
- SyncOptionRefs: the source re-runs the effect when `options.length` changes. The model
  compares the handle list's length with the options' length instead. The two agree while the
  options are fixed.
- The stateless primitives (Text, Color, Margin, Button), the stories and the demo app.

## Findings

| source | as written | input that shows it | evidently intended | confidence | as-written member | corrected member |
|---|---|---|---|---|---|---|
| libs/react/src/lib/molecules/select/Select.tsx:158-159 | Enter on an option always commits `options[highlightedIndex!]` at `highlightedIndex!`, even when the highlight is `null`: the observer gets `(undefined, null)`, the selection is cleared and the overlay closes | select B; reopen with ArrowDown; hover an option and leave it (highlight `null`, focus stays on the option); press Enter | the non-null assertion shows Enter was meant to act only on a highlighted option; with nothing highlighted it should do nothing | not executed; medium | SelectComponent.EnterWithoutHighlightAsWritten | SelectComponent.Select.OptionKeyDown |
