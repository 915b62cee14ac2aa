/**
 * What the overlay computes for each option: the row handed to a renderer
 * (`isSelected`, `option`, and the capability `getOptionRecommendedProps`) and the
 * recommended-props record itself, merged shallowly with caller overrides.
 *
 * A props object is a map from attribute name to value; Dafny's right-biased map union
 * `defaults + overrides` is exactly JavaScript's `{ ...defaults, ...overrides }`.
 */
module OptionProps {
  import opened Optional

  /** One entry of the `options` prop: its display `label` (named `caption` here, because
      `label` is a Dafny keyword) and its `value`, the stable key of the option. */
  datatype SelectOption = SelectOption(caption: string, value: string)

  /** A focus handle (`React.createRef`): the slot it was made for and the generation of the
      handle list it belongs to, so that a regenerated list holds new handles. */
  datatype Handle = Handle(generation: nat, slot: nat)

  /** The event listeners bound on an option element, named by what they do. */
  datatype OptionEvent =
    | KeyDownOnOption         // onOptionKeyDown
    | MouseEnterOption(index: nat)  // highlight this option
    | MouseLeaveOption        // clear the highlight
    | ClickOption(index: nat)       // commit this option

  /** A value a props object can hold. `Undefined` is a key present with value `undefined`,
      which React renders as an absent attribute. */
  datatype PropValue =
    | Text(s: string)
    | Number(n: int)
    | Flag(b: bool)
    | Undefined
    | RefTo(handle: Handle)
    | Listener(event: OptionEvent)
    | OptionClasses(selected: bool, highlighted: bool)

  type Props = map<string, PropValue>

  const RefKey := "ref"
  const RoleKey := "role"
  const AriaLabelKey := "aria-label"
  const AriaCheckedKey := "aria-checked"
  const OnKeyDownKey := "onKeyDown"
  const TabIndexKey := "tabIndex"
  const OnMouseEnterKey := "onMouseEnter"
  const OnMouseLeaveKey := "onMouseLeave"
  const ClassNameKey := "className"
  const OnClickKey := "onClick"

  /** The attribute names the recommended props always define. */
  const RecommendedKeys: set<string> :=
    {RefKey, RoleKey, AriaLabelKey, AriaCheckedKey, OnKeyDownKey, TabIndexKey,
     OnMouseEnterKey, OnMouseLeaveKey, ClassNameKey, OnClickKey}

  /** What the overlay knows about option `index` while rendering it: the option, whether it
      is the selection, whether it is highlighted, and its focus handle if one exists yet. */
  datatype OptionRow = OptionRow(
    option: SelectOption,
    index: nat,
    isSelected: bool,
    isHighlighted: bool,
    ref: Option<Handle>)

  /** The rows of the open overlay, one per option and in option order. */
  function Rows(options: seq<SelectOption>, selected: Option<nat>, highlighted: Option<nat>,
                refs: seq<Handle>): (rows: seq<OptionRow>)
    ensures |rows| == |options|
    ensures forall i :: 0 <= i < |rows| ==>
      rows[i].option == options[i] && rows[i].index == i &&
      (rows[i].isSelected <==> selected == Some(i)) &&
      (rows[i].isHighlighted <==> highlighted == Some(i)) &&
      (rows[i].ref.Some? <==> i < |refs|) &&
      (i < |refs| ==> rows[i].ref == Some(refs[i]))
  {
    seq(|options|, i requires 0 <= i < |options| =>
      OptionRow(options[i], i, selected == Some(i), highlighted == Some(i),
                if i < |refs| then Some(refs[i]) else None))
  }

  /** The recommended props before any override. */
  function DefaultProps(row: OptionRow): (p: Props) {
    map[
      RefKey := (if row.ref.Some? then RefTo(row.ref.value) else Undefined),
      RoleKey := Text("menuitemradio"),
      AriaLabelKey := Text(row.option.caption),
      AriaCheckedKey := (if row.isSelected then Flag(true) else Undefined),
      OnKeyDownKey := Listener(KeyDownOnOption),
      TabIndexKey := Number(if row.isHighlighted then -1 else 0),
      OnMouseEnterKey := Listener(MouseEnterOption(row.index)),
      OnMouseLeaveKey := Listener(MouseLeaveOption),
      ClassNameKey := OptionClasses(row.isSelected, row.isHighlighted),
      OnClickKey := Listener(ClickOption(row.index))
    ]
  }

  /** `getOptionRecommendedProps(overrides)`: every key the caller overrides takes the
      caller's value, every other recommended key keeps its default, and nothing else is
      present. */
  function RecommendedProps(row: OptionRow, overrides: Props): (p: Props)
    ensures p.Keys == RecommendedKeys + overrides.Keys
    ensures forall k :: k in overrides ==> p[k] == overrides[k]
    ensures forall k :: k in RecommendedKeys && k !in overrides ==> p[k] == DefaultProps(row)[k]
  {
    DefaultProps(row) + overrides
  }

  /** Without overrides, the record an option gets from the overlay: a radio menu item labelled
      with the option's label, checked exactly when it is the selection (otherwise the
      attribute is absent), out of the tab order (-1) exactly when highlighted, with a
      handle when one exists, and listeners that highlight, clear and commit this index. */
  lemma RecommendedPropsOfRow(options: seq<SelectOption>, selected: Option<nat>,
                              highlighted: Option<nat>, refs: seq<Handle>, i: nat)
    requires i < |options|
    ensures var p := RecommendedProps(Rows(options, selected, highlighted, refs)[i], map[]);
      p.Keys == RecommendedKeys &&
      p[RoleKey] == Text("menuitemradio") &&
      p[AriaLabelKey] == Text(options[i].caption) &&
      (p[AriaCheckedKey] == Flag(true) <==> selected == Some(i)) &&
      (p[AriaCheckedKey] != Flag(true) ==> p[AriaCheckedKey] == Undefined) &&
      (p[TabIndexKey] == Number(-1) <==> highlighted == Some(i)) &&
      (p[TabIndexKey] != Number(-1) ==> p[TabIndexKey] == Number(0)) &&
      (p[RefKey] == if i < |refs| then RefTo(refs[i]) else Undefined) &&
      p[OnMouseEnterKey] == Listener(MouseEnterOption(i)) &&
      p[OnMouseLeaveKey] == Listener(MouseLeaveOption) &&
      p[OnClickKey] == Listener(ClickOption(i)) &&
      p[OnKeyDownKey] == Listener(KeyDownOnOption) &&
      p[ClassNameKey] == OptionClasses(selected == Some(i), highlighted == Some(i))
  {
  }

  /** Radio semantics of the rows: no two rows are selected and no two are highlighted, and
      when the selection is an index of the list, exactly that row is selected. */
  lemma RowsSelectAtMostOne(options: seq<SelectOption>, selected: Option<nat>,
                            highlighted: Option<nat>, refs: seq<Handle>)
    ensures var rows := Rows(options, selected, highlighted, refs);
      forall i, j :: 0 <= i < j < |rows| ==>
        !(rows[i].isSelected && rows[j].isSelected) &&
        !(rows[i].isHighlighted && rows[j].isHighlighted)
    ensures InRange(selected, |options|) && selected.Some? ==>
      Rows(options, selected, highlighted, refs)[selected.value].isSelected
  {
  }
}
