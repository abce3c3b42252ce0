/**
 * The row editor: created for a cell, it builds the editor named by the row's
 * `item.editor` (a read-only editor when that is undefined) and forwards to it
 * the nine calls it defines; show, hide and position are not forwarded.
 */
module RowEditors {
  import opened JsValues
  import opened EditorRules
  import opened Editors

  /** A call on the delegate either returns a value or throws a TypeError with this message. */
  datatype Outcome<T> = Success(value: T) | Failure(error: string)

  /** The kind of the delegate the row editor builds: `item.editor`, or ReadOnly when undefined. */
  function DelegateKind(selector: Option<EditorKind>): (k: EditorKind)
    ensures selector.None? ==> k == ReadOnly
    ensures selector.Some? ==> k == selector.value
  {
    match selector
    case None => ReadOnly
    case Some(kind) => kind
  }

  class RowEditor {
    /** `args.item.editor` as seen by `init`. */
    const selector: Option<EditorKind>
    const theEditor: Editor

    ghost predicate Valid()
      reads this, theEditor
    {
      theEditor.Valid() && theEditor.kind == DelegateKind(selector)
    }

    /** `init`. */
    constructor (args: EditorArgs)
      ensures Valid() && fresh(theEditor)
      ensures selector == old(args.item.editor)
      ensures theEditor.column == args.column && theEditor.stringToBoolean == args.stringToBoolean
      ensures theEditor.kind.YesNoSelect? ==> theEditor.options == YesNoOptions
      ensures theEditor.kind.SelectCell? ==> RendersEntries(theEditor.options, EntriesOf(args.column.options))
      ensures theEditor.control == Control("", if theEditor.options == [] then None else Some(0), false)
      ensures theEditor.defaultValue == Undefined
      ensures theEditor.attached && theEditor.hostCalls == []
      ensures theEditor.widget == (match theEditor.kind case Date => [InitWidget] case Color => ShowCalls(Color, false) case _ => [])
      ensures theEditor.open == theEditor.kind.Color?
      ensures theEditor.kind.LongText? ==>
        theEditor.wrapper == Box(args.position.top - 5, args.position.left - 5) && theEditor.wrapperShown
    {
      selector := args.item.editor;
      theEditor := new Editor(DelegateKind(args.item.editor), args);
    }

    method Destroy()
      requires Valid()
      modifies theEditor`attached, theEditor`widget, theEditor`open
      ensures Valid() && !theEditor.attached
      ensures theEditor.widget == old(theEditor.widget) + DestroyCalls(theEditor.kind)
      ensures theEditor.open == (theEditor.kind.Date? && old(theEditor.open))
      ensures selector.None? ==> theEditor.widget == old(theEditor.widget) && !theEditor.open
    {
      theEditor.Destroy();
    }

    /** Focus: the read-only delegate's focus does nothing. */
    method Focus()
      requires Valid()
      modifies theEditor`widget, theEditor`open
      ensures Valid()
      ensures theEditor.kind.Color? ==> theEditor.widget == old(theEditor.widget) + ShowCalls(Color, old(theEditor.open)) && theEditor.open
      ensures !theEditor.kind.Color? ==> theEditor.widget == old(theEditor.widget) && theEditor.open == old(theEditor.open)
    {
      theEditor.Focus();
    }

    /** getValue: delegates without one (every kind but Text, ReadOnly and Color) throw. */
    method GetValue() returns (r: Outcome<string>)
      requires Valid()
      ensures r.Success? <==> theEditor.kind.HasValueAccessors()
      ensures r.Success? ==> r.value == theEditor.control.text
      ensures r.Failure? ==> r.error == "theEditor.getValue is not a function"
      ensures selector.None? ==> r == Success(theEditor.control.text)
    {
      if theEditor.kind.HasValueAccessors() {
        var text := theEditor.GetValue();
        r := Success(text);
      } else {
        r := Failure("theEditor.getValue is not a function");
      }
    }

    /** setValue: delegates without one throw and nothing changes. */
    method SetValue(v: JsValue) returns (r: Outcome<()>)
      requires Valid()
      modifies theEditor`control
      ensures Valid()
      ensures r.Success? <==> theEditor.kind.HasValueAccessors()
      ensures r.Failure? ==> r.error == "theEditor.setValue is not a function"
      ensures theEditor.control ==
                if r.Success? then old(theEditor.control).(text := Rendered(theEditor.kind, v)) else old(theEditor.control)
    {
      if theEditor.kind.HasValueAccessors() {
        theEditor.SetValue(v);
        r := Success(());
      } else {
        r := Failure("theEditor.setValue is not a function");
      }
    }

    method LoadValue(item: Item)
      requires Valid()
      modifies theEditor`control, theEditor`defaultValue
      ensures Valid()
      ensures theEditor.defaultValue ==
                LoadDefault(theEditor.kind, theEditor.stringToBoolean, Field(item.fields, theEditor.column.field))
      ensures theEditor.control == LoadControl(theEditor.kind, theEditor.options, old(theEditor.control), theEditor.defaultValue)
      ensures IsValueChanged() ==
                ReportsChangeAfterLoad(theEditor.kind, theEditor.options, Field(item.fields, theEditor.column.field))
    {
      theEditor.LoadValue(item);
    }

    /** serializeValue: a row without an editor stores its span's text. */
    function SerializeValue(): (r: JsValue)
      requires Valid()
      reads this, theEditor
      ensures !IsNullish(r)
      ensures selector.None? ==> r == Str(theEditor.control.text)
    {
      theEditor.SerializeValue()
    }

    method ApplyValue(item: Item, state: JsValue)
      modifies item`fields
      ensures item.fields == WithField(old(item.fields), theEditor.column.field, state)
    {
      theEditor.ApplyValue(item, state);
    }

    /** isValueChanged: a row without an editor never reports a change. */
    predicate IsValueChanged()
      requires Valid()
      reads this, theEditor
      ensures selector.None? ==> !IsValueChanged()
    {
      theEditor.IsValueChanged()
    }

    /** validate: a row without an editor always passes. */
    function Validate(): (r: ValidationResult)
      requires Valid()
      reads this, theEditor
      ensures r.valid ==> r == Accepted
      ensures selector.None? ==> r == Accepted
    {
      theEditor.Validate()
    }
  }
}
