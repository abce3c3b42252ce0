/**
 * The editor objects the grid creates for a cell: one class over the editor
 * kind, with the state each editor keeps in its closure (the rendered control,
 * the captured default, the open flag of its widget, the long-text wrapper's
 * box) as fields that its methods update.
 */
module Editors {
  import opened JsValues
  import opened EditorRules

  /** A grid row: its properties and the editor constructor named by `item.editor` (None when undefined). */
  class Item {
    var fields: map<string, JsValue>
    var editor: Option<EditorKind>

    constructor (fields: map<string, JsValue>, editor: Option<EditorKind>)
      ensures this.fields == fields && this.editor == editor
    {
      this.fields := fields;
      this.editor := editor;
    }
  }

  /**
   * The `args` object: the column, the row item, the cell's box, and the
   * page-level `stringToBoolean` function the checkbox editor calls.
   */
  datatype EditorArgs = EditorArgs(
    column: Column,
    item: Item,
    position: Box,
    stringToBoolean: JsValue -> bool)

  class Editor {
    const kind: EditorKind
    const column: Column
    const stringToBoolean: JsValue -> bool
    /** The options of a select control; empty for every other kind. */
    const options: seq<SelectOption>

    var control: Control
    var defaultValue: JsValue
    /** `calendarOpen` of the date editor, `isOpen` of the colour editor. */
    var open: bool
    /** The calls made on the datepicker or the colour picker, in order. */
    var widget: seq<WidgetCall>
    /** The long-text editor's floating wrapper: its box and whether it is shown. */
    var wrapper: Box
    var wrapperShown: bool
    /** The control is still in the page. */
    var attached: bool
    /** The calls made on the host: commitChanges, cancelChanges, navigatePrev, navigateNext. */
    var hostCalls: seq<HostCall>

    ghost predicate Valid()
      reads this
    {
      (kind.YesNoSelect? ==> options == YesNoOptions) &&
      (kind.SelectCell? ==> RendersEntries(options, EntriesOf(column.options))) &&
      (!kind.IsSelect() ==> options == []) &&
      (control.selected.Some? ==> control.selected.value < |options|) &&
      (kind.HasTextControl() ==> Displayable(kind, control.text)) &&
      (kind.Color? ==> PickerTracked(open, widget)) &&
      (!(kind.Date? || kind.Color?) ==> !open && widget == []) &&
      (!kind.LongText? ==> hostCalls == [])
    }

    /** `init`: renders the control; a select starts on its first option. */
    constructor (kind: EditorKind, args: EditorArgs)
      ensures Valid()
      ensures this.kind == kind && column == args.column && stringToBoolean == args.stringToBoolean
      ensures kind.YesNoSelect? ==> options == YesNoOptions
      ensures kind.SelectCell? ==> RendersEntries(options, EntriesOf(args.column.options))
      ensures control == Control("", if options == [] then None else Some(0), false)
      ensures defaultValue == Undefined && attached && hostCalls == []
      ensures widget == (match kind case Date => [InitWidget] case Color => ShowCalls(Color, false) case _ => [])
      ensures open == kind.Color?
      ensures kind.LongText? ==> wrapper == Box(args.position.top - 5, args.position.left - 5) && wrapperShown
    {
      var opts: seq<SelectOption> := [];
      if kind.SelectCell? {
        opts := BuildOptions(EntriesOf(args.column.options));
      } else if kind.YesNoSelect? {
        opts := YesNoOptions;
      }
      this.kind := kind;
      column := args.column;
      stringToBoolean := args.stringToBoolean;
      options := opts;
      control := Control("", if opts == [] then None else Some(0), false);
      defaultValue := Undefined;
      attached := true;
      hostCalls := [];
      wrapper := Box(args.position.top - 5, args.position.left - 5);
      wrapperShown := kind.LongText?;
      if kind.Color? {
        ColorInitTracked();
        widget := ShowCalls(Color, false);
        open := true;
      } else {
        widget := if kind.Date? then [InitWidget] else [];
        open := false;
      }
    }

    /** `destroy`: removes the control and tears down the widget. */
    method Destroy()
      requires Valid()
      modifies this`attached, this`widget, this`open
      ensures Valid() && !attached
      ensures widget == old(widget) + DestroyCalls(kind)
      ensures open == (kind.Date? && old(open))
    {
      if kind.Color? {
        ColorDestroyKeepsPicker(open, widget);
        open := false;
      }
      widget := widget + DestroyCalls(kind);
      attached := false;
    }

    /** `focus`: the colour editor also shows its picker. */
    method Focus()
      requires Valid()
      modifies this`widget, this`open
      ensures Valid()
      ensures kind.Color? ==> widget == old(widget) + ShowCalls(Color, old(open)) && open
      ensures !kind.Color? ==> widget == old(widget) && open == old(open)
    {
      if kind.Color? {
        ColorShowKeepsPicker(open, widget);
        widget := widget + ShowCalls(kind, open);
        open := true;
      }
    }

    /** `getValue`: the control's text (the picker's value for Color). */
    method GetValue() returns (r: string)
      requires kind.HasValueAccessors()
      ensures r == control.text
    {
      r := control.text;
    }

    /** `setValue(v)`: `$input.val(v)`, or the picker's `set`. */
    method SetValue(v: JsValue)
      requires Valid() && kind.HasValueAccessors()
      modifies this`control
      ensures Valid()
      ensures control == old(control).(text := Rendered(kind, v))
    {
      control := control.(text := Rendered(kind, v));
    }

    /**
     * `loadValue(item)`: captures the default from the field and renders it.
     * Right after it, isValueChanged reports exactly ReportsChangeAfterLoad.
     */
    method LoadValue(item: Item)
      requires Valid()
      modifies this`control, this`defaultValue
      ensures Valid()
      ensures defaultValue == LoadDefault(kind, stringToBoolean, Field(item.fields, column.field))
      ensures control == LoadControl(kind, options, old(control), defaultValue)
      ensures IsValueChanged() == ReportsChangeAfterLoad(kind, options, Field(item.fields, column.field))
    {
      var v := Field(item.fields, column.field);
      ChangeAfterLoad(kind, options, stringToBoolean, control, v);
      defaultValue := LoadDefault(kind, stringToBoolean, v);
      control := LoadControl(kind, options, control, defaultValue);
    }

    /** `serializeValue()`: never null; the text of an input, textarea, span or picker as it is. */
    function SerializeValue(): (r: JsValue)
      reads this
      ensures !IsNullish(r)
      ensures (kind.HasValueAccessors() || kind.Date? || kind.LongText?) ==> r == Str(control.text)
      ensures (kind.Integer? || kind.PercentComplete?) ==> r.Num?
      ensures (kind.YesNoSelect? || kind.Checkbox?) ==> r.Bool?
      ensures (kind.Integer? || kind.PercentComplete?) ==> r == Num(ParseIntOrZero(control.text))
      ensures kind.SelectCell? && column.options.Some? ==> r == Str(SelectedText(options, control.selected))
      ensures (kind.YesNoSelect? || (kind.SelectCell? && column.options.None?)) ==>
                r.Bool? && (r.b <==> SelectedValue(options, control.selected) == Str("yes"))
      ensures kind.Checkbox? ==> r == Bool(control.checked)
    {
      Serialize(kind, column.options.Some?, options, control)
    }

    /** `applyValue(item, state)`: `item[column.field] = state`. */
    method ApplyValue(item: Item, state: JsValue)
      modifies item`fields
      ensures item.fields == WithField(old(item.fields), column.field, state)
    {
      item.fields := WithField(item.fields, column.field, state);
    }

    /** `isValueChanged()`: never for ReadOnly, nor for an empty control against a missing default. */
    predicate IsValueChanged()
      reads this
      ensures kind.ReadOnly? ==> !IsValueChanged()
      ensures kind.HasTextControl() && control.text == "" && IsNullish(defaultValue) ==> !IsValueChanged()
    {
      Changed(kind, options, control, defaultValue)
    }

    /** `validate()`: a pass carries no message; only Text, Integer and PercentComplete can fail. */
    function Validate(): (r: ValidationResult)
      reads this
      ensures r.valid ==> r == Accepted
      ensures !(kind.Text? || kind.Integer? || kind.PercentComplete?) ==> r == Accepted
      ensures kind.Text? ==> r == TextValidate(column.validator, control.text)
      ensures kind.Integer? ==> (r.valid <==> !IsNaN(control.text))
      ensures kind.Integer? && !r.valid ==> r.msg == Some("Please enter a valid integer")
      ensures kind.PercentComplete? ==> (r.valid <==> ParseInt(control.text, false).Some?)
      ensures kind.PercentComplete? && !r.valid ==> r.msg == Some("Please enter a valid positive number")
    {
      EditorRules.Validate(kind, column.validator, control.text)
    }

    /** `show()` of a detached editor. */
    method Show()
      requires Valid() && kind.IsDetached()
      modifies this`widget, this`open, this`wrapperShown
      ensures Valid()
      ensures widget == old(widget) + ShowCalls(kind, old(open))
      ensures open == (kind.Color? || old(open))
      ensures wrapperShown == (kind.LongText? || old(wrapperShown))
    {
      if kind.Color? {
        ColorShowKeepsPicker(open, widget);
        widget := widget + ShowCalls(kind, open);
        open := true;
      } else {
        widget := widget + ShowCalls(kind, open);
        if kind.LongText? {
          wrapperShown := true;
        }
      }
    }

    /** `hide()` of a detached editor. */
    method Hide()
      requires Valid() && kind.IsDetached()
      modifies this`widget, this`open, this`wrapperShown
      ensures Valid()
      ensures widget == old(widget) + HideCalls(kind, old(open))
      ensures open == (!kind.Color? && old(open))
      ensures wrapperShown == (!kind.LongText? && old(wrapperShown))
    {
      if kind.Color? {
        ColorHideKeepsPicker(open, widget);
        widget := widget + HideCalls(kind, open);
        open := false;
      } else {
        widget := widget + HideCalls(kind, open);
        if kind.LongText? {
          wrapperShown := false;
        }
      }
    }

    /** `position(p)` of a detached editor. */
    method Position(p: Box)
      requires Valid() && kind.IsDetached()
      modifies this`widget, this`wrapper
      ensures Valid()
      ensures widget == old(widget) + PositionCalls(kind, open, p)
      ensures wrapper == (if kind.LongText? then Box(p.top - 5, p.left - 5) else old(wrapper))
    {
      if kind.Color? {
        assert widget + PositionCalls(kind, open, p) == widget;
      }
      widget := widget + PositionCalls(kind, open, p);
      if kind.LongText? {
        wrapper := Box(p.top - 5, p.left - 5);
      }
    }

    /** The datepicker's `beforeShow` callback. */
    method CalendarOpening()
      requires Valid() && kind.Date?
      modifies this`open
      ensures Valid() && open
    {
      open := true;
    }

    /** The datepicker's `onClose` callback. */
    method CalendarClosed()
      requires Valid() && kind.Date?
      modifies this`open
      ensures Valid() && !open
    {
      open := false;
    }

    /** The long-text editor's Save button and Ctrl+Enter: `commitChanges()`. */
    method Save()
      requires Valid() && kind.LongText?
      modifies this`hostCalls
      ensures Valid()
      ensures hostCalls == old(hostCalls) + [CommitChanges]
    {
      hostCalls := hostCalls + [CommitChanges];
    }

    /** The long-text editor's Cancel button and Escape: restores the default, then `cancelChanges()`. */
    method Cancel()
      requires Valid() && kind.LongText?
      modifies this`control, this`hostCalls
      ensures Valid()
      ensures control == old(control).(text := Rendered(LongText, defaultValue))
      ensures hostCalls == old(hostCalls) + [CancelChanges]
    {
      control := control.(text := Rendered(LongText, defaultValue));
      hostCalls := hostCalls + [CancelChanges];
    }

    /** The long-text editor's keydown handler; the result says whether the default action is prevented. */
    method HandleKeyDown(e: KeyEvent) returns (preventDefault: bool)
      requires Valid() && kind.LongText?
      modifies this`control, this`hostCalls
      ensures Valid()
      ensures preventDefault == LongTextKeyDown(e).preventDefault
      ensures hostCalls == old(hostCalls) + (if LongTextKeyDown(e).call.NoCall? then [] else [LongTextKeyDown(e).call])
      ensures control == if LongTextKeyDown(e).call.CancelChanges?
                         then old(control).(text := Rendered(LongText, defaultValue)) else old(control)
    {
      preventDefault := false;
      if e.which == KeyEnter && e.ctrlKey {
        Save();
      } else if e.which == KeyEscape {
        preventDefault := true;
        Cancel();
      } else if e.which == KeyTab && e.shiftKey {
        preventDefault := true;
        hostCalls := hostCalls + [NavigatePrev];
      } else if e.which == KeyTab {
        preventDefault := true;
        hostCalls := hostCalls + [NavigateNext];
      }
    }

    /** A click on one of the percent-complete editor's preset buttons puts its amount in the input. */
    method PresetClicked(p: Preset)
      requires Valid() && kind.PercentComplete?
      modifies this`control
      ensures Valid()
      ensures control == old(control).(text := DecimalString(PresetAmount(p)))
      ensures SerializeValue() == Num(PresetAmount(p)) && Validate() == Accepted
    {
      DecimalDisplayable(kind, PresetAmount(p));
      control := control.(text := DecimalString(PresetAmount(p)));
      PresetAccepted(p, control);
    }
  }
}
