# SlickGrid cell editors in Dafny

A model of the in-place cell editors of `slick.editors.js` (SlickGrid's basic
editors). The grid creates an editor over a cell and drives it through a fixed
set of calls:

- `loadValue(item)` captures a default from `item[column.field]` and renders it;
- `getValue` and `setValue` read and write the control;
- `serializeValue()` turns the control into the value to store;
- `applyValue(item, state)` writes that one field of the row;
- `isValueChanged()` compares the control with the captured default;
- `validate()` returns `{valid, msg}`;
- detached editors also implement `show`, `hide` and `position`.

The project has four modules:

- `JsValues` (`js_values.dfy`): the JavaScript values the editors handle
  (`undefined`, `null`, booleans, numbers, strings). It also holds the operators
  the editors use, as total functions:
  - truthiness and `x || y`;
  - `String(v)`, and the text jQuery's `.val(v)` puts into an input;
  - `Number(s)` by the StringNumericLiteral grammar, and `isNaN`;
  - the Abstract Equality Comparison behind `==` and `!=`;
  - `parseInt(s, 10)`, `parseInt(s)` with `0x` detection, and `parseInt(s, 10) || 0`.

  Its lemmas show that the decimal form of an integer reads back exactly through
  `Number`, `parseInt` and loose `==`.
- `EditorRules` (`editor_rules.dfy`): the per-editor rules as functions of the
  editor kind, the rendered control and the captured default. It covers:
  - what each control (text input, textarea, span, picker) keeps of the text
    written into it;
  - what `loadValue` stores and renders;
  - `serializeValue`, `isValueChanged` and `validate`;
  - how the select's option list is built and how `$select.val(v)` picks an option;
  - the long-text editor's key dispatch;
  - the calls the date and colour editors make on their third-party widgets.

  The lemmas give, for every editor kind, what `isValueChanged` reports right
  after `loadValue`, and what the store-then-reload round trip gives back. The
  widget lemmas show that the colour picker's `isOpen` flag always agrees with
  the calls made on the picker, and that the picker is never initialised while
  it is open.
- `Editors` (`editors.dfy`): the editor object. It is one class `Editor` over the
  editor kinds Text, ReadOnly, Integer, Date, YesNoSelect, Checkbox,
  PercentComplete, LongText, SelectCell (registered as "Combo") and Color. The
  closure state becomes fields that the methods update:
  - the control;
  - `defaultValue`;
  - `calendarOpen` or `isOpen`;
  - the log of widget calls;
  - the long-text wrapper's box;
  - the log of host callbacks.

  `Item` is a row whose `fields` map `applyValue` updates in place.
- `RowEditors` (`row_editor.dfy`): the `RowMulti` editor. It builds the editor
  named by `item.editor`, or a read-only editor when that is undefined, and
  forwards to it the nine calls it defines. Show, hide and position are not
  forwarded, so a Date, LongText or Color delegate's widget is never shown,
  hidden or moved through it.

Modelling choices:

- Numbers are exact integers. `Number(s)` is classified as NaN, an integer, a
  finite non-integer, or an infinity, which is all that loose comparison with
  the editors' integer values needs.
- jQuery's `.val(v)` writes `""` for `null` and `undefined` and `String(v)`
  otherwise (`ControlText`). What the control then reads back depends on the
  element (`Rendered`): a text `<input>` drops every line feed and carriage
  return, the `<textarea>` turns CR LF and a lone CR into LF, and `.val()` on
  the read-only `<span>` drops carriage returns. The colour picker is taken to
  give back the text it was set to.
- On a single select, `.val(v)` follows a jQuery select hook that walks the
  options from last to first and clears the selection when nothing matches:
  it selects the first option, in document order, whose value equals
  the string form of `v`. It selects nothing when no option matches, and a
  boolean matches nothing. After that, `.val()` is `null`.
- A freshly built select has its first option selected.
- The datepicker and the colour picker are external services. The model keeps
  the sequence of calls the editors make on them (init, show, hide, move,
  destroy). The picker's colour value is an abstract string that `setValue`
  and `loadValue` set.
- The datepicker's `beforeShow` and `onClose` callbacks are methods the widget
  invokes (`CalendarOpening`, `CalendarClosed`).
- Calls on the host are recorded as a log of `HostCall`s: `commitChanges`,
  `cancelChanges`, `navigatePrev` and `navigateNext`.
- `stringToBoolean`, which the checkbox editor calls but the file does not
  define, is a parameter of the construction arguments.

Where the code does something a reader might not expect, the model follows the
code:

- Only the Text editor consults `column.validator`. Integer and
  PercentComplete apply only their own numeric check, and every other editor
  always passes.
- `isValueChanged` right after `loadValue` is not false for every editor
  (`ReportsChangeAfterLoad`):
  - Text reports a change after loading the boolean `true` or a string with a
    line break, which the input drops;
  - Color after loading `true`. This rests on the picker giving back the loaded
    text, while the code reads it back through `toHexString`
    (slick.editors.js:925), which the model does not follow;
  - Date after loading any boolean or a string with a line break, LongText after
    any boolean or a string with a carriage return;
  - PercentComplete after loading `true` or a string whose `Number` differs from
    the `parseInt`-or-0 of its input text, such as "1.5", "1e2", "0x10" or
    "abc"; "", "05", " 7" and "5.0" report no change;
  - YesNoSelect for every value except the string `"yes"`, because it compares
    `"yes"`/`"no"` with the raw field value;
  - SelectCell, for a string or a number, exactly when no option's key is its
    text; always for a boolean; for null or undefined exactly when some key is
    empty.
- The SelectCell editor stores the selected option's label, not its key. So
  reloading the stored label selects nothing unless some key equals it
  (`SelectReloadsLabel`).
- The checkbox round trip holds only when `stringToBoolean` maps each boolean to
  itself (`CheckboxRoundTrip`). The file does not define that function.
- Integer and PercentComplete reload the canonical decimal text of the stored
  integer, not the typed text (`TextRoundTrip`).

## Model

| member | source | states |
|---|---|---|
| JsValues.NatStringValue | slick.editors.js:237 | the decimal digits `String(n)` writes for a natural n read back as n |
| JsValues.ToNumberDecimal | slick.editors.js:133 | `Number(String(n))` is exactly the integer n |
| JsValues.ParseIntDecimal | slick.editors.js:235 | `parseInt(String(n))` is n, both with radix 10 and with base detection |
| JsValues.ParseIntNegative | slick.editors.js:243 | for text starting with neither white space nor a sign, parseInt of `"-"` followed by it is the negation of parseInt of the text, and NaN stays NaN |
| JsValues.LooseEqDecimal | slick.editors.js:251 | `String(n) == n` holds loosely, in both orders |
| JsValues.LowerCaseWordIsNaN | slick.editors.js:255 | a word of lower-case letters is NaN for `Number` and gives no digits to `parseInt` |
| JsValues.HexTextNumber | slick.editors.js:255 | `Number("0x10")` is 16, so `isNaN` accepts hexadecimal text |
| JsValues.FractionTextNumber | slick.editors.js:255 | `Number("1.5")` is a finite number that is not an integer |
| JsValues.ParseIntStopsAtDot | slick.editors.js:243 | `parseInt("1.5", 10)` stops at the dot and gives 1 |
| JsValues.ParseIntStopsAtX | slick.editors.js:243 | `parseInt("0x10", 10)` stops at the x and gives 0 |
| EditorRules.Field | slick.editors.js:118 | `item[field]` is the stored value when the row has the property, and undefined when it does not |
| EditorRules.WithField | slick.editors.js:128-130 | `item[field] = state` makes the field hold state, adds at most that key, and leaves every other property as it was |
| EditorRules.BuildOptions | slick.editors.js:497-507 | the option loop renders exactly one option per entry of `column.options`, in order, with value `String(key)` and text `String(val)` |
| EditorRules.FirstMatch | slick.editors.js:519 | `$select.val(key)` selects an option whose value is key and before which no option has that value; it selects nothing exactly when no option has that value |
| EditorRules.DuplicateKeySelectsFirst | slick.editors.js:517-528 | with two options keyed "a", loading "a" selects the first and a configured SelectCell stores its label "A1" |
| JsValues.Truthy | slick.editors.js:118 | ToBoolean: a value is falsy exactly when it is null, undefined, `false`, `0` or `""`, and truthy otherwise |
| JsValues.Or | slick.editors.js:118 | JavaScript's `or` of a and b is a when a is truthy and b otherwise, and truthy exactly when one of them is |
| JsValues.ToString | slick.editors.js:500-503 | String(v): a string is itself, a number becomes decimal text that `Number()` reads back as that number, and a boolean becomes `"true"` or `"false"` |
| JsValues.ControlText | slick.editors.js:119 | `.val(v)` writes "" for null and undefined, a string as it is and a number as its decimal text |
| JsValues.ToNumber | slick.editors.js:133 | `Number(s)` of a blank string is 0 |
| JsValues.IsNaN | slick.editors.js:255 | `isNaN` accepts a blank string |
| JsValues.LooseEq | slick.editors.js:133 | null and undefined are loosely equal to each other and nothing else, values of one type exactly when identical, and every value to itself |
| JsValues.ParseInt | slick.editors.js:243 | parseInt of a blank string is NaN, and a negative result needs a leading minus after the white space |
| JsValues.ParseIntOrZero | slick.editors.js:243 | parseInt-or-0 is 0 when parseInt is NaN and parseInt's integer otherwise |
| EditorRules.StripLineBreaks | slick.editors.js:90 | a text input keeps no line feed or carriage return, and keeps text without them unchanged |
| EditorRules.TextareaText | slick.editors.js:735 | the textarea reads back no carriage return, and text without one unchanged |
| EditorRules.StripLineBreaksAppend | slick.editors.js:90 | the text input keeps every character other than LF and CR in its order: stripping `a + b` is stripping `a` followed by stripping `b` |
| EditorRules.StripLineBreaksCons | slick.editors.js:90 | a leading character other than LF and CR stays in front of the stripped rest, and a leading LF or CR is dropped |
| EditorRules.TextareaCons | slick.editors.js:735 | the textarea reads a leading CR LF as one LF, a lone CR as LF, and keeps any other leading character in front of the rest |
| EditorRules.WithoutCRCons | slick.editors.js:161 | the span drops a leading CR and keeps any other leading character in front of the rest |
| EditorRules.WithoutCRAppend | slick.editors.js:161 | dropping CRs from `a + b` gives the result for `a` followed by that for `b`, so every other character keeps its order |
| EditorRules.WithoutCR | slick.editors.js:161 | the span reads back no carriage return, and text without one unchanged |
| EditorRules.Rendered | slick.editors.js:114 | what a text control reads back after `.val(v)` is text it can hold, and is the written text whenever the control can hold that |
| EditorRules.RenderedKeeps | slick.editors.js:114 | a string reads back unchanged from a control exactly when the control can hold it |
| EditorRules.DecimalDisplayable | slick.editors.js:237 | every control holds the decimal text of an integer unchanged |
| EditorRules.SelectKey | slick.editors.js:519 | `$select.val(v)` matches options against v's control text, so null and undefined match the key `""`; a boolean matches no option |
| EditorRules.EditorKind.HasValueAccessors | slick.editors.js:109-115 | exactly Text, ReadOnly and Color define getValue and setValue, and each of them has a text control, not a select or checkbox |
| EditorRules.SelectionFor | slick.editors.js:519 | `$select.val(v)` selects the first option whose value is v's text, and nothing exactly for a boolean or when no option has that value |
| EditorRules.SelectedValue | slick.editors.js:524-526 | `$select.val()` is null when nothing is selected, and otherwise the value of the selected option |
| EditorRules.SelectedText | slick.editors.js:524-526 | the selected option's text is "" when none is selected, and the selected option's label otherwise |
| EditorRules.IntegerDefault | slick.editors.js:234-240 | the Integer default is a number or "", "" exactly when parseInt of the field's text is NaN, and otherwise that integer |
| EditorRules.LoadDefault | slick.editors.js:117-122 | Text, ReadOnly and Color keep a truthy field and "" otherwise; Integer keeps IntegerDefault, the parsed integer or ""; Checkbox keeps `stringToBoolean(v)`; Date, LongText, PercentComplete and the selects keep the raw field |
| EditorRules.LoadControl | slick.editors.js:613-620 | loadValue changes only the facet of the control the kind uses: a text control shows what it keeps of the default (`Rendered`), SelectCell selects `SelectionFor` the default, YesNo the first "yes" or "no" option by the default's truthiness, and the checkbox is checked exactly for a truthy default |
| EditorRules.StringChanged | slick.editors.js:133 | the string editors' change test is `text != s` for a string default, `text != ""` for a null or undefined default, `Number(text) != n` for a number default, and `Number(text)` against 1 or 0 for a boolean default |
| EditorRules.PercentCompleteChanged | slick.editors.js:699 | PercentComplete's change test is `parseInt-or-0(text) != n` for a number default, `text != ""` for a null or undefined default, `Number(s) != parseInt-or-0(text)` for a string default, and parseInt-or-0 of the text against 1 or 0 for a boolean default |
| EditorRules.DestroyCalls | slick.editors.js:430-435 | only the date and colour editors make widget calls on destroy, their last call destroys the widget, and none initialises or shows it; the date editor hides the datepicker before destroying it |
| EditorRules.ShowCalls | slick.editors.js:856-882 | only the date and colour editors make widget calls on show; the datepicker panel is shown exactly when the calendar is open; the colour picker is always shown last and initialised exactly when closed; show never hides or destroys |
| EditorRules.HideCalls | slick.editors.js:884-889 | hide makes at most one call, a hide, exactly when the date or colour widget is open |
| EditorRules.PositionCalls | slick.editors.js:449-456 | position moves only the open datepicker panel, to 30 pixels below the cell at the same left |
| EditorRules.Changed | slick.editors.js:132-134 | isValueChanged is always false for ReadOnly; for Text, Integer, Date, LongText and Color it is StringChanged of the control text and the default, for PercentComplete PercentCompleteChanged, for the selects `.val() != default` with the selected option's value, for the checkbox the checked state against the default; so it is `text != default` for a string default in the string editors and false for an empty control against a null or undefined default |
| EditorRules.Serialize | slick.editors.js:522-528 | serializeValue is never null or undefined; Integer and PercentComplete store `parseInt(text, 10) or 0`, the string editors the control text, a configured SelectCell the selected option's label, YesNo and an unconfigured SelectCell whether `.val()` is "yes", the checkbox its checked state |
| EditorRules.TextValidate | slick.editors.js:136-148 | the Text editor fails exactly when a validator exists and rejects the text, returns the validator's own result in that case, and `{valid: true, msg: null}` otherwise |
| EditorRules.Validate | slick.editors.js:254-266 | Integer fails with "Please enter a valid integer" exactly when `isNaN(text)`; PercentComplete fails with "Please enter a valid positive number" exactly when `parseInt(text, 10)` is NaN; Text gives the column validator's result when it fails and `{valid: true, msg: null}` otherwise; every editor except Text, Integer and PercentComplete always passes; a pass is always `{valid: true, msg: null}` |
| EditorRules.TextChangeAfterLoad | slick.editors.js:117-134 | the Text editor reports a change right after loading v exactly when v is `true` or a string with a line break; Color exactly when v is `true` |
| EditorRules.RawChangeAfterLoad | slick.editors.js:462-479 | Date reports a change right after loading v exactly when v is a boolean or a string with a line break; LongText exactly when v is a boolean or a string with a carriage return |
| EditorRules.IntegerChangeAfterLoad | slick.editors.js:234-252 | the Integer editor never reports a change right after loading, whatever the field holds |
| EditorRules.PercentCompleteChangeAfterLoad | slick.editors.js:685-700 | PercentComplete reports a change right after loading v exactly when v is `true` or a string whose `Number` differs from the parseInt-or-0 of its input text |
| EditorRules.PercentCompleteNumAfterLoad | slick.editors.js:685-699 | PercentComplete reports no change right after loading a number |
| EditorRules.PercentCompleteBoolAfterLoad | slick.editors.js:685-699 | PercentComplete reports a change right after loading a boolean exactly when it is `true` |
| EditorRules.PercentCompleteStrAfterLoad | slick.editors.js:685-699 | after loading a string s, PercentComplete reports a change exactly when `Number(s)` differs from the parseInt-or-0 of the text the input keeps |
| EditorRules.BoolTextPlain | slick.editors.js:119 | every control keeps the text of a boolean, which is NaN for `Number` and 0 for parseInt-or-0 |
| EditorRules.BoolTextChanged | slick.editors.js:133 | a text-control editor whose default is a boolean reads back as changed |
| EditorRules.NaNTextChanged | slick.editors.js:133 | text that is no number differs loosely from every boolean and number default |
| EditorRules.ZeroAgainstBool | slick.editors.js:699 | text that parses to 0 differs from `true` and equals `false` |
| EditorRules.YesNoSelection | slick.editors.js:554 | "yes" selects the first of the two options and "no" the second |
| EditorRules.YesNoChangeAfterLoad | slick.editors.js:567-582 | the Yes/No editor reports a change right after loading v exactly when v is not the string "yes" |
| EditorRules.SelectChangeAfterLoad | slick.editors.js:517-536 | SelectCell reports a change right after loading v exactly when no option's key is v's text (always for a boolean; for null or undefined exactly when some key is empty) |
| EditorRules.SelectNumAfterLoad | slick.editors.js:517-536 | after loading a number, SelectCell reports a change exactly when no option is keyed by its decimal text |
| EditorRules.SelectStrAfterLoad | slick.editors.js:517-536 | after loading a string, SelectCell reports a change exactly when no option is keyed by it |
| EditorRules.ChangeAfterLoad | slick.editors.js:117-134 | for every editor kind, isValueChanged right after loadValue is exactly ReportsChangeAfterLoad of the loaded field value |
| EditorRules.TextRoundTrip | slick.editors.js:117-130 | storing what a text-control editor serialises and loading it again shows the same text (for any text the control can hold), the canonical decimal of `parseInt(text, 10)` (0 when NaN) for Integer and PercentComplete |
| EditorRules.IntegerCanonicalRoundTrip | slick.editors.js:234-248 | an Integer control holding the decimal text of an integer survives store and reload unchanged |
| EditorRules.YesNoRoundTrip | slick.editors.js:567-578 | a Yes/No selection survives storing its boolean and loading it again |
| EditorRules.CheckboxRoundTrip | slick.editors.js:613-628 | a checkbox survives store and reload when stringToBoolean maps each boolean to itself |
| EditorRules.SelectReloadsLabel | slick.editors.js:517-528 | a configured SelectCell stores the selected option's label, and reloading that label selects nothing when no option has it as its key |
| EditorRules.UnconfiguredSelectStoresFalse | slick.editors.js:522-528 | without options a SelectCell editor stores false |
| EditorRules.IntegerAcceptsFraction | slick.editors.js:242-266 | "1.5" passes the Integer editor's validation and is stored as 1 |
| EditorRules.IntegerAcceptsHex | slick.editors.js:242-266 | "0x10" passes the Integer editor's validation and is stored as 0 |
| EditorRules.IntegerRejectsWord | slick.editors.js:254-266 | "abc" fails the Integer editor's validation and is stored as 0 |
| EditorRules.EmptyControlValidation | slick.editors.js:702-714 | an empty control passes the Integer editor's validation but fails PercentComplete's |
| EditorRules.PresetAmount | slick.editors.js:657 | the three preset buttons carry the amounts 0 (not started), 50 (in progress) and 100 (complete), one each |
| EditorRules.PresetAccepted | slick.editors.js:670-673 | a preset button's text (0, 50, 100) passes validation and is stored as that amount |
| EditorRules.LongTextKeyDown | slick.editors.js:749-762 | Ctrl+Enter commits, Escape cancels, Shift+Tab goes back, plain Tab goes forward (each exactly), and the default action is prevented exactly for Escape and Tab |
| EditorRules.PickerOpen | slick.editors.js:850-884 | the colour picker is closed before any call, open right after an init, and closed right after a hide or destroy; any other call leaves it as it was |
| EditorRules.AppendWidgetCall | slick.editors.js:856-889 | adding a call to the picker log keeps "no init while open" unless the call initialises an open picker |
| EditorRules.ColorInitTracked | slick.editors.js:830-845 | init's show on a closed picker issues init then show, leaving the picker open and tracked |
| EditorRules.ColorShowKeepsPicker | slick.editors.js:856-882 | show initialises the picker only when it is closed, always shows it, and leaves `isOpen` set and agreeing with the picker |
| EditorRules.ColorSecondShowSkipsInit | slick.editors.js:856-882 | a show that follows a show issues no second init |
| EditorRules.ColorHideKeepsPicker | slick.editors.js:884-889 | hide leaves `isOpen` clear and agreeing with the picker |
| EditorRules.ColorDestroyKeepsPicker | slick.editors.js:850-854 | destroy leaves `isOpen` clear and agreeing with the picker |
| Editors.Editor.constructor | slick.editors.js:497-507 | init renders the control: a select has its options (one per `column.options` entry, or yes/no) with the first selected; the datepicker is initialised; the colour picker is initialised and shown with `isOpen` set; the long-text wrapper sits at (top-5, left-5) |
| Editors.Editor.Destroy | slick.editors.js:430-435 | destroy removes the control; the date editor hides and destroys the datepicker, the colour editor destroys the picker and clears `isOpen` |
| Editors.Editor.Focus | slick.editors.js:896-899 | focus on the colour editor also shows its picker; on other editors it changes no modelled state |
| Editors.Editor.GetValue | slick.editors.js:109-111 | getValue returns the control's text |
| Editors.Editor.SetValue | slick.editors.js:113-115 | setValue puts the text the control keeps of `.val(v)` into it, keeps the editor valid and changes nothing else |
| Editors.Editor.SerializeValue | slick.editors.js:124-126 | serializeValue is never null or undefined; Text, ReadOnly, Color, Date and LongText store the control text as it is, Integer and PercentComplete `parseInt(text, 10) or 0`, a SelectCell with `column.options` the selected option's label, YesNo and a SelectCell without options whether `.val()` is "yes", the checkbox its checked state |
| Editors.Editor.IsValueChanged | slick.editors.js:132-134 | isValueChanged is never true for ReadOnly, nor for a text control that is empty against a null or undefined default |
| Editors.Editor.Validate | slick.editors.js:136-148 | Text returns `column.validator`'s result on the control text when that result fails, and `{valid: true, msg: null}` otherwise; a pass is always `{valid: true, msg: null}`; only Text, Integer and PercentComplete can fail, Integer exactly when `isNaN(text)` with "Please enter a valid integer", PercentComplete exactly when `parseInt(text, 10)` is NaN with "Please enter a valid positive number" |
| Editors.Editor.LoadValue | slick.editors.js:117-122 | loadValue captures the kind's default from `item[field]`, renders it, and afterwards isValueChanged is exactly ReportsChangeAfterLoad |
| Editors.Editor.ApplyValue | slick.editors.js:128-130 | applyValue writes state to `item[column.field]` only |
| Editors.Editor.Show | slick.editors.js:856-882 | show of a detached editor: the datepicker panel only while the calendar is open, the colour picker initialised unless open and then shown, the long-text wrapper shown |
| Editors.Editor.Hide | slick.editors.js:884-889 | hide of a detached editor: both widgets only while open, the colour editor then clears `isOpen`, the long-text wrapper hidden |
| Editors.Editor.Position | slick.editors.js:449-456 | the open datepicker panel moves to (top+30, left), the long-text wrapper to (top-5, left-5), the colour editor does nothing |
| Editors.Editor.CalendarOpening | slick.editors.js:420-422 | the datepicker's beforeShow sets `calendarOpen` |
| Editors.Editor.CalendarClosed | slick.editors.js:423-425 | the datepicker's onClose clears `calendarOpen` |
| Editors.Editor.Save | slick.editors.js:764-766 | save calls commitChanges once |
| Editors.Editor.Cancel | slick.editors.js:768-771 | cancel restores the default into the control, then calls cancelChanges |
| Editors.Editor.HandleKeyDown | slick.editors.js:749-762 | the keydown handler makes exactly the host call LongTextKeyDown names, restores the default on Escape, and reports whether the default action was prevented |
| Editors.Editor.PresetClicked | slick.editors.js:670-673 | a preset button puts its amount into the input, which then serialises to that amount and validates |
| RowEditors.DelegateKind | slick.editors.js:35-41 | the delegate is the editor `item.editor` names, and a read-only editor when it is undefined |
| RowEditors.RowEditor.constructor | slick.editors.js:35-41 | init builds a fresh delegate of DelegateKind over the same args, in the state the delegate's own init leaves: empty control with the first option selected, undefined default, attached, the select's options built from `column.options` (or yes/no), the datepicker initialised for Date, the colour picker initialised, shown and `isOpen` for Color, and the LongText wrapper shown at (top-5, left-5) of `args.position` |
| RowEditors.RowEditor.Destroy | slick.editors.js:43-45 | destroy is the delegate's destroy: the control is detached, the widget gets the kind's destroy calls, `isOpen` is cleared and only a Date delegate keeps `calendarOpen`; with no `item.editor` it makes no widget call |
| RowEditors.RowEditor.Focus | slick.editors.js:47-49 | focus is the delegate's focus: a Color delegate shows its picker (initialising it only when closed) and is open afterwards; every other delegate's widget state is unchanged |
| RowEditors.RowEditor.GetValue | slick.editors.js:51-53 | getValue returns the delegate's control text when the delegate has getValue, and otherwise throws "theEditor.getValue is not a function" |
| RowEditors.RowEditor.SetValue | slick.editors.js:55-57 | setValue writes the text the delegate's control keeps of `.val(v)` when it has setValue, and otherwise throws and changes nothing |
| RowEditors.RowEditor.LoadValue | slick.editors.js:59-61 | loadValue is the delegate's, so afterwards isValueChanged is ReportsChangeAfterLoad of the delegate's kind |
| RowEditors.RowEditor.SerializeValue | slick.editors.js:63-65 | serializeValue is the delegate's, never null or undefined, and the span's text when `item.editor` is undefined |
| RowEditors.RowEditor.ApplyValue | slick.editors.js:67-69 | applyValue writes only the delegate column's field |
| RowEditors.RowEditor.IsValueChanged | slick.editors.js:71-73 | isValueChanged is the delegate's, and always false when `item.editor` is undefined |
| RowEditors.RowEditor.Validate | slick.editors.js:75-77 | validate is the delegate's, and always `{valid: true, msg: null}` when `item.editor` is undefined |

## Left out

- FloatEditor and PercentageEditor: they rest on `parseFloat`, rounding and float-to-string formatting, and the model has no floating point.
- Numbers in general are exact integers. `String(n)` of huge numbers (`1e+21`), `-0` and the double rounding of `Number(s)` are not modelled.
- The percent-complete slider: a third-party widget. Only the preset buttons' effect on the input is modelled.
- The datepicker's and the colour picker's own behaviour (panel animation, palette, `toHexString` normalisation of the picker value): foreign code. The picker value is an abstract string.
- HTML escaping in SelectCellEditor's option building: a key containing a quote would break the markup. The model assumes well-formed keys and labels.
- `for (i in opt)` also visits enumerable non-index properties of the options object. The model visits the entries of a list.
- DOM construction, focus and selection of the text, CSS sizing, the `keydown.nav` propagation stop and the page-wide `$('html').click` handler: UI side effects with no modelled state.
- Namespace registration: represented as the closed `EditorKind`. A row whose `item.editor` is the RowMulti editor itself (which would recurse without end) or any other constructor is not representable. Neither is an `item.editor` that is `null`, which the code does not treat as undefined.
- `stringToBoolean`: not defined in the file, so it is a parameter. The loose boolean coercion of the checkbox's default is therefore not proved.
- Editors.Editor.Destroy: the date editor's `calendarOpen` is cleared only through the datepicker's own onClose callback (`CalendarClosed`), which the model does not force.
- The LongText editor's Save and Cancel buttons are the same `Save` and `Cancel` methods. The click binding itself is not modelled.
- RowEditors.RowEditor.SerializeValue: jQuery keeps a boolean given to the read-only `<span>` as the boolean itself, so serializeValue of a row without an editor returns `true` or `false` after loading one. The model holds the span's text ("true" or "false") and states `Str(text)`.
- Editors.Editor.SerializeValue: for ReadOnly the same boolean case stores the text "true" or "false" instead of the boolean.
- Editors.Editor.LoadValue: for ReadOnly a boolean field is held as its text; isValueChanged is false for ReadOnly either way.
- Editors.Editor.SetValue: for ReadOnly a boolean is held as its text rather than as the boolean.
- RowEditors.RowEditor.GetValue: a row without an editor that was given a boolean returns the boolean; the model returns its text.
- A jQuery select hook that walks the options forward, so that the last matching option wins and a miss leaves the selection alone: jQuery is not part of this model, which follows the backward-walking hook that clears the selection on a miss (`FirstMatch`).
