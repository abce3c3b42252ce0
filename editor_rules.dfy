/**
 * The per-editor rules of the SlickGrid cell editors, as functions of the
 * editor kind, the rendered control and the default value captured by
 * `loadValue`: what `loadValue` stores and renders, what `serializeValue`
 * returns, what `isValueChanged` and `validate` report, how the long-text
 * editor answers keys, and how the colour picker's open flag follows the calls
 * made on the picker. The stateful editor object of module Editors is built on
 * these.
 */
module EditorRules {
  import opened JsValues

  /** The editors of the file (registered under the same names; SelectCell is "Combo"). */
  datatype EditorKind =
    | Text | ReadOnly | Integer | Date | YesNoSelect | Checkbox
    | PercentComplete | LongText | SelectCell | Color
  {
    /** The control is a text input, a textarea, a span or the colour picker's value: a string. */
    predicate HasTextControl() {
      !(SelectCell? || YesNoSelect? || Checkbox?)
    }

    /** The editor implements show, hide and position. */
    predicate IsDetached() {
      Date? || LongText? || Color?
    }

    /** The editor defines getValue and setValue. */
    predicate HasValueAccessors()
      ensures HasValueAccessors() ==> HasTextControl() && !IsSelect() && !Checkbox?
      ensures HasValueAccessors() <==> Text? || ReadOnly? || Color?
    {
      Text? || ReadOnly? || Color?
    }

    predicate IsSelect() {
      SelectCell? || YesNoSelect?
    }
  }

  /** `{valid, msg}`; None stands for `msg: null`. */
  datatype ValidationResult = ValidationResult(valid: bool, msg: Option<string>)

  const Accepted := ValidationResult(true, None)

  /** One `{key, val}` entry of `column.options`. */
  datatype OptionEntry = OptionEntry(key: JsValue, val: JsValue)

  /** The column descriptor: field name, optional validator, optional option list. */
  datatype Column = Column(
    field: string,
    validator: Option<string -> ValidationResult>,
    options: Option<seq<OptionEntry>>)

  /** A rendered `<OPTION value=...>text</OPTION>`. */
  datatype SelectOption = SelectOption(value: string, text: string)

  /**
   * The rendered control: the text of an input, textarea or span (or the colour
   * picker's value), the selected option of a select, the checked state of a
   * checkbox. Each editor kind uses one of the three.
   */
  datatype Control = Control(text: string, selected: Option<nat>, checked: bool)

  const YesNoOptions := [SelectOption("yes", "Yes"), SelectOption("no", "No")]

  // ---------------------------------------------------------------------------
  // Row items

  /** `item[f]`: undefined when the row has no such property. */
  function Field(fields: map<string, JsValue>, f: string): (r: JsValue)
    ensures f in fields ==> r == fields[f]
    ensures f !in fields ==> r == Undefined
  {
    if f in fields then fields[f] else Undefined
  }

  /** `item[f] = v`: field f holds v and every other property is unchanged. */
  function WithField(fields: map<string, JsValue>, f: string, v: JsValue): (r: map<string, JsValue>)
    ensures Field(r, f) == v
    ensures r.Keys == fields.Keys + {f}
    ensures forall k :: k != f ==> Field(r, k) == Field(fields, k)
  {
    fields[f := v]
  }

  // ---------------------------------------------------------------------------
  // Select options

  /** `for (i in opt)` over an absent option list visits nothing. */
  function EntriesOf(options: Option<seq<OptionEntry>>): seq<OptionEntry> {
    match options
    case None => []
    case Some(entries) => entries
  }

  /** One option per entry, in order, with value `key` and text `val` (both through ToString). */
  predicate RendersEntries(options: seq<SelectOption>, entries: seq<OptionEntry>) {
    |options| == |entries| &&
    forall i :: 0 <= i < |entries| ==>
      options[i] == SelectOption(ToString(entries[i].key), ToString(entries[i].val))
  }

  /** Builds the options of a SelectCell editor from `column.options`, one entry at a time. */
  method BuildOptions(entries: seq<OptionEntry>) returns (options: seq<SelectOption>)
    ensures RendersEntries(options, entries)
  {
    options := [];
    var i := 0;
    while i < |entries|
      invariant 0 <= i <= |entries|
      invariant RendersEntries(options, entries[..i])
    {
      var v := entries[i];
      options := options + [SelectOption(ToString(v.key), ToString(v.val))];
      i := i + 1;
    }
    assert entries[..i] == entries;
  }

  predicate HasValue(options: seq<SelectOption>, key: string) {
    exists j :: 0 <= j < |options| && options[j].value == key
  }

  /**
   * The option `$select.val(key)` leaves selected. jQuery's select hook visits
   * the options from last to first and selects each one whose value is `key`;
   * on a single select every selection clears the previous one, so the first
   * match in document order stays selected. None when no option matches (the
   * hook then sets `selectedIndex` to -1).
   */
  function FirstMatch(options: seq<SelectOption>, key: string): (r: Option<nat>)
    ensures r.Some? ==> r.value < |options| && options[r.value].value == key
    ensures r.Some? ==> forall j :: 0 <= j < r.value ==> options[j].value != key
    ensures r.None? <==> !HasValue(options, key)
  {
    if options == [] then None
    else if options[0].value == key then Some(0)
    else
      match FirstMatch(options[1..], key)
      case None => None
      case Some(i) => Some(i + 1)
  }

  /** The string `$select.val(v)` matches option values against; booleans match nothing. */
  function SelectKey(v: JsValue): (r: Option<string>)
    ensures r.None? <==> v.Bool?
    ensures r.Some? ==> r.value == ControlText(v)
    ensures IsNullish(v) ==> r == Some("")
  {
    match v
    case Bool(_) => None
    case _ => Some(ControlText(v))
  }

  /** The option `$select.val(v)` selects: the first whose value is v's text; none for a boolean. */
  function SelectionFor(options: seq<SelectOption>, v: JsValue): (r: Option<nat>)
    ensures r.Some? ==> r.value < |options| && options[r.value].value == ControlText(v)
    ensures r.Some? ==> forall j :: 0 <= j < r.value ==> options[j].value != ControlText(v)
    ensures r.None? <==> v.Bool? || !HasValue(options, ControlText(v))
  {
    match SelectKey(v)
    case None => None
    case Some(k) => FirstMatch(options, k)
  }

  /** `$select.val()`: the selected option's value, or null when none is selected. */
  function SelectedValue(options: seq<SelectOption>, selected: Option<nat>): (r: JsValue)
    ensures r.Null? || r.Str?
    ensures r.Str? ==> HasValue(options, r.s)
    ensures selected.None? ==> r == Null
    ensures selected.Some? && selected.value < |options| ==> r == Str(options[selected.value].value)
  {
    match selected
    case None => Null
    case Some(i) => if i < |options| then Str(options[i].value) else Null
  }

  /** `$select.children("option:selected").text()`: "" when none is selected. */
  function SelectedText(options: seq<SelectOption>, selected: Option<nat>): (r: string)
    ensures selected.None? ==> r == ""
    ensures selected.Some? && selected.value < |options| ==> r == options[selected.value].text
  {
    match selected
    case None => ""
    case Some(i) => if i < |options| then options[i].text else ""
  }

  // ---------------------------------------------------------------------------
  // What a control keeps of the text it is given

  predicate HasCR(s: string) {
    '\r' in s
  }

  predicate HasLineBreak(s: string) {
    '\n' in s || HasCR(s)
  }

  /**
   * The value of an `<input type=text>` after `.val(s)`: the input's value
   * sanitisation removes every line feed and carriage return.
   */
  function StripLineBreaks(s: string): (r: string)
    ensures !HasLineBreak(r)
    ensures !HasLineBreak(s) ==> r == s
    ensures |r| <= |s|
  {
    if s == [] then []
    else if s[0] == '\n' || s[0] == '\r' then StripLineBreaks(s[1..])
    else [s[0]] + StripLineBreaks(s[1..])
  }

  /**
   * What `.val()` reads back from a `<textarea>` given s: the textarea turns
   * CR LF and a lone CR into LF.
   */
  function TextareaText(s: string): (r: string)
    ensures '\r' !in r
    ensures '\r' !in s ==> r == s
    decreases |s|
  {
    if s == [] then []
    else if s[0] == '\r' then "\n" + TextareaText(if |s| > 1 && s[1] == '\n' then s[2..] else s[1..])
    else [s[0]] + TextareaText(s[1..])
  }

  /**
   * The input keeps every other character in order: stripping distributes over
   * concatenation, so the result is the input's characters other than LF and
   * CR, each kept where it was.
   */
  lemma {:induction false} StripLineBreaksAppend(a: string, b: string)
    ensures StripLineBreaks(a + b) == StripLineBreaks(a) + StripLineBreaks(b)
  {
    if a != [] {
      assert (a + b)[0] == a[0];
      assert (a + b)[1..] == a[1..] + b;
      StripLineBreaksAppend(a[1..], b);
    } else {
      assert a + b == b;
    }
  }

  /** A character other than LF and CR survives in place; LF and CR are dropped. */
  lemma StripLineBreaksCons(c: char, s: string)
    ensures c != '\n' && c != '\r' ==> StripLineBreaks([c] + s) == [c] + StripLineBreaks(s)
    ensures c == '\n' || c == '\r' ==> StripLineBreaks([c] + s) == StripLineBreaks(s)
  {
    assert ([c] + s)[0] == c && ([c] + s)[1..] == s;
  }

  /** The textarea turns CR LF into one LF, a lone CR into LF, and keeps every other character. */
  lemma TextareaCons(c: char, s: string)
    ensures c == '\r' && s != [] && s[0] == '\n' ==> TextareaText([c] + s) == "\n" + TextareaText(s[1..])
    ensures c == '\r' && (s == [] || s[0] != '\n') ==> TextareaText([c] + s) == "\n" + TextareaText(s)
    ensures c != '\r' ==> TextareaText([c] + s) == [c] + TextareaText(s)
  {
    var t := [c] + s;
    assert t[0] == c && t[1..] == s;
    if |s| > 0 {
      assert t[1] == s[0] && t[2..] == s[1..];
    }
  }

  /** The span keeps a leading character other than CR in front of the rest, and drops a leading CR. */
  lemma WithoutCRCons(c: char, s: string)
    ensures c != '\r' ==> WithoutCR([c] + s) == [c] + WithoutCR(s)
    ensures c == '\r' ==> WithoutCR([c] + s) == WithoutCR(s)
  {
    assert ([c] + s)[0] == c && ([c] + s)[1..] == s;
  }

  /**
   * Dropping carriage returns distributes over concatenation, so every other
   * character is kept where it was.
   */
  lemma {:induction false} WithoutCRAppend(a: string, b: string)
    ensures WithoutCR(a + b) == WithoutCR(a) + WithoutCR(b)
  {
    if a != [] {
      assert (a + b)[0] == a[0];
      assert (a + b)[1..] == a[1..] + b;
      WithoutCRAppend(a[1..], b);
    } else {
      assert a + b == b;
    }
  }

  /** What `.val()` reads back from an element without a value of its own: carriage returns are dropped. */
  function WithoutCR(s: string): (r: string)
    ensures '\r' !in r
    ensures '\r' !in s ==> r == s
  {
    if s == [] then []
    else if s[0] == '\r' then WithoutCR(s[1..])
    else [s[0]] + WithoutCR(s[1..])
  }

  /** Text the control of a text-control editor of this kind can hold. */
  predicate Displayable(kind: EditorKind, t: string) {
    match kind
    case LongText => '\r' !in t
    case ReadOnly => '\r' !in t
    case Color => true
    case _ => !HasLineBreak(t)
  }

  /**
   * The text a text-control editor reads back after `.val(v)`: the inputs drop
   * line breaks, the textarea and the span drop carriage returns, and the
   * colour picker keeps the text as it is.
   */
  function Rendered(kind: EditorKind, v: JsValue): (r: string)
    ensures Displayable(kind, r)
    ensures Displayable(kind, ControlText(v)) ==> r == ControlText(v)
  {
    var t := ControlText(v);
    match kind
    case LongText => TextareaText(t)
    case ReadOnly => WithoutCR(t)
    case Color => t
    case _ => StripLineBreaks(t)
  }

  /** A string reads back unchanged exactly when the control can hold it. */
  lemma RenderedKeeps(kind: EditorKind, s: string)
    ensures Rendered(kind, Str(s)) == s <==> Displayable(kind, s)
  {
    assert ControlText(Str(s)) == s;
  }

  /** Every control can hold the decimal text of an integer. */
  lemma DecimalDisplayable(kind: EditorKind, n: int)
    ensures Displayable(kind, DecimalString(n))
    ensures Rendered(kind, Num(n)) == DecimalString(n)
  {
    var t := DecimalString(n);
    var u := NatString(if n < 0 then -n else n);
    assert !HasLineBreak(u) by {
      forall i | 0 <= i < |u| ensures u[i] != '\n' && u[i] != '\r' {
      }
    }
    if n < 0 {
      assert t == "-" + u;
      assert forall i :: 0 <= i < |t| ==> t[i] == '-' || t[i] in u;
    } else {
      assert t == u;
    }
    assert ControlText(Num(n)) == t;
  }

  // ---------------------------------------------------------------------------
  // loadValue

  /** IntegerEditor's default: `parseInt(item[field])`, or '' when that is NaN. */
  function IntegerDefault(v: JsValue): (r: JsValue)
    ensures r.Num? || r == Str("")
    ensures r == Str("") <==> ParseInt(ToString(v), true).None?
    ensures r.Num? ==> ParseInt(ToString(v), true) == Some(r.n)
  {
    match ParseInt(ToString(v), true)
    case None => Str("")
    case Some(k) => Num(k)
  }

  /** The `defaultValue` loadValue captures from the field value v. */
  function LoadDefault(kind: EditorKind, stringToBoolean: JsValue -> bool, v: JsValue): (r: JsValue)
    ensures (kind.Text? || kind.ReadOnly? || kind.Color?) ==>
              (Truthy(v) ==> r == v) && (!Truthy(v) ==> r == Str(""))
    ensures kind.Integer? ==> r == IntegerDefault(v)
    ensures kind.Checkbox? ==> r == Bool(stringToBoolean(v))
    ensures (kind.Date? || kind.LongText? || kind.PercentComplete? || kind.IsSelect()) ==> r == v
  {
    match kind
    case Text => Or(v, Str(""))
    case ReadOnly => Or(v, Str(""))
    case Color => Or(v, Str(""))
    case Integer => IntegerDefault(v)
    case Checkbox => Bool(stringToBoolean(v))
    case _ => v
  }

  /** The control after loadValue rendered the default d into it. */
  function LoadControl(kind: EditorKind, options: seq<SelectOption>, c: Control, d: JsValue): (r: Control)
    ensures r.text != c.text ==> kind.HasTextControl()
    ensures r.selected != c.selected ==> kind.IsSelect()
    ensures r.checked != c.checked ==> kind.Checkbox?
    ensures kind.HasTextControl() ==> Displayable(kind, r.text)
    ensures kind.IsSelect() ==> (r.selected.Some? ==> r.selected.value < |options|)
    ensures kind.Checkbox? ==> (r.checked <==> Truthy(d))
    ensures kind.HasTextControl() ==> r.text == Rendered(kind, d)
    ensures kind.SelectCell? ==> r.selected == SelectionFor(options, d)
    ensures kind.YesNoSelect? ==> r.selected == FirstMatch(options, if Truthy(d) then "yes" else "no")
  {
    match kind
    case SelectCell => c.(selected := SelectionFor(options, d))
    case YesNoSelect => c.(selected := FirstMatch(options, if Truthy(d) then "yes" else "no"))
    case Checkbox => c.(checked := Truthy(d))
    case _ => c.(text := Rendered(kind, d))
  }

  // ---------------------------------------------------------------------------
  // isValueChanged

  /**
   * The change test of the Text, Integer, Date, LongText and Color editors:
   * an empty control against a null or undefined default is unchanged;
   * otherwise the control text is compared loosely with the default.
   */
  predicate StringChanged(text: string, d: JsValue)
    ensures d.Str? ==> (StringChanged(text, d) <==> text != d.s)
    ensures IsNullish(d) ==> (StringChanged(text, d) <==> text != "")
    ensures d.Num? ==> (StringChanged(text, d) <==> ToNumber(text) != Integral(d.n))
    ensures d.Bool? ==> (StringChanged(text, d) <==> ToNumber(text) != Integral(if d.b then 1 else 0))
  {
    !(text == "" && IsNullish(d)) && !LooseEq(Str(text), d)
  }

  /** PercentCompleteEditor compares the parsed-or-0 text with the raw default. */
  predicate PercentCompleteChanged(text: string, d: JsValue)
    ensures d.Num? ==> (PercentCompleteChanged(text, d) <==> ParseIntOrZero(text) != d.n)
    ensures d.Bool? ==> (PercentCompleteChanged(text, d) <==> ParseIntOrZero(text) != (if d.b then 1 else 0))
    ensures IsNullish(d) ==> (PercentCompleteChanged(text, d) <==> text != "")
    ensures d.Str? ==> (PercentCompleteChanged(text, d) <==> ToNumber(d.s) != Integral(ParseIntOrZero(text)))
  {
    !(text == "" && IsNullish(d)) && !LooseEq(Num(ParseIntOrZero(text)), d)
  }

  /** `isValueChanged()` of an editor whose control is c and whose default is d. */
  predicate Changed(kind: EditorKind, options: seq<SelectOption>, c: Control, d: JsValue)
    ensures kind.ReadOnly? ==> !Changed(kind, options, c, d)
    ensures kind.HasTextControl() && c.text == "" && IsNullish(d) ==> !Changed(kind, options, c, d)
    ensures (kind.Text? || kind.Date? || kind.LongText?) && d.Str? ==>
              (Changed(kind, options, c, d) <==> c.text != d.s)
    ensures kind.PercentComplete? && d.Num? ==> (Changed(kind, options, c, d) <==> ParseIntOrZero(c.text) != d.n)
    ensures kind.IsSelect() && d.Str? ==> (Changed(kind, options, c, d) <==> SelectedValue(options, c.selected) != d)
    ensures kind.Checkbox? && d.Bool? ==> (Changed(kind, options, c, d) <==> c.checked != d.b)
    ensures kind.PercentComplete? ==> (Changed(kind, options, c, d) <==> PercentCompleteChanged(c.text, d))
    ensures kind.HasTextControl() && !kind.ReadOnly? && !kind.PercentComplete? ==>
              (Changed(kind, options, c, d) <==> StringChanged(c.text, d))
    ensures kind.IsSelect() ==> (Changed(kind, options, c, d) <==> !LooseEq(SelectedValue(options, c.selected), d))
    ensures kind.Checkbox? ==> (Changed(kind, options, c, d) <==> !LooseEq(Bool(c.checked), d))
  {
    match kind
    case ReadOnly => false
    case PercentComplete => PercentCompleteChanged(c.text, d)
    case SelectCell => !LooseEq(SelectedValue(options, c.selected), d)
    case YesNoSelect => !LooseEq(SelectedValue(options, c.selected), d)
    case Checkbox => !LooseEq(Bool(c.checked), d)
    case _ => StringChanged(c.text, d)
  }

  // ---------------------------------------------------------------------------
  // serializeValue and validate

  /**
   * `serializeValue()`. `configured` says whether `column.options` is set,
   * which decides what a SelectCell editor stores.
   */
  function Serialize(kind: EditorKind, configured: bool, options: seq<SelectOption>, c: Control): (r: JsValue)
    ensures !IsNullish(r)
    ensures (kind.Integer? || kind.PercentComplete?) ==> r.Num?
    ensures kind.HasTextControl() && !(kind.Integer? || kind.PercentComplete?) ==> r == Str(c.text)
    ensures (kind.YesNoSelect? || kind.Checkbox? || (kind.SelectCell? && !configured)) ==> r.Bool?
    ensures kind.SelectCell? && configured ==> r.Str?
    ensures (kind.Integer? || kind.PercentComplete?) ==> r == Num(ParseIntOrZero(c.text))
    ensures kind.SelectCell? && configured ==> r == Str(SelectedText(options, c.selected))
    ensures (kind.YesNoSelect? || (kind.SelectCell? && !configured)) ==>
              r.Bool? && (r.b <==> SelectedValue(options, c.selected) == Str("yes"))
    ensures kind.Checkbox? ==> r == Bool(c.checked)
  {
    match kind
    case Integer => Num(ParseIntOrZero(c.text))
    case PercentComplete => Num(ParseIntOrZero(c.text))
    case SelectCell =>
      if configured then Str(SelectedText(options, c.selected))
      else Bool(LooseEq(SelectedValue(options, c.selected), Str("yes")))
    case YesNoSelect => Bool(LooseEq(SelectedValue(options, c.selected), Str("yes")))
    case Checkbox => Bool(c.checked)
    case _ => Str(c.text)
  }

  /** TextEditor's validate: a failing validator result is returned as it is, anything else passes. */
  function TextValidate(validator: Option<string -> ValidationResult>, text: string): (r: ValidationResult)
    ensures !r.valid <==> validator.Some? && !validator.value(text).valid
    ensures !r.valid ==> r == validator.value(text)
    ensures r.valid ==> r == Accepted
  {
    if validator.Some? && !validator.value(text).valid then validator.value(text) else Accepted
  }

  /** `validate()` of an editor whose control text is `text`. */
  function Validate(kind: EditorKind, validator: Option<string -> ValidationResult>, text: string): (r: ValidationResult)
    ensures r.valid ==> r == Accepted
    ensures kind.Integer? ==> (r.valid <==> !IsNaN(text))
    ensures kind.Integer? && !r.valid ==> r.msg == Some("Please enter a valid integer")
    ensures kind.PercentComplete? ==> (r.valid <==> ParseInt(text, false).Some?)
    ensures kind.PercentComplete? && !r.valid ==> r.msg == Some("Please enter a valid positive number")
    ensures kind.Text? ==> r == TextValidate(validator, text)
    ensures !(kind.Text? || kind.Integer? || kind.PercentComplete?) ==> r == Accepted
  {
    match kind
    case Text => TextValidate(validator, text)
    case Integer =>
      if IsNaN(text) then ValidationResult(false, Some("Please enter a valid integer")) else Accepted
    case PercentComplete =>
      if ParseInt(text, false).None? then ValidationResult(false, Some("Please enter a valid positive number"))
      else Accepted
    case _ => Accepted
  }

  // ---------------------------------------------------------------------------
  // What isValueChanged reports right after loadValue

  /**
   * Whether `isValueChanged()` reports a change right after `loadValue` read the
   * field value v, stated as a case analysis on v rather than through the
   * editors' own comparisons.
   */
  predicate ReportsChangeAfterLoad(kind: EditorKind, options: seq<SelectOption>, v: JsValue) {
    match kind
    case ReadOnly => false
    case Integer => false
    case Checkbox => false
    case Text => v == Bool(true) || (v.Str? && HasLineBreak(v.s))
    case Color => v == Bool(true)
    case Date => v.Bool? || (v.Str? && HasLineBreak(v.s))
    case LongText => v.Bool? || (v.Str? && HasCR(v.s))
    case PercentComplete =>
      v == Bool(true) || (v.Str? && ToNumber(v.s) != Integral(ParseIntOrZero(StripLineBreaks(v.s))))
    case YesNoSelect => v != Str("yes")
    case SelectCell =>
      match v
      case Str(s) => !HasValue(options, s)
      case Num(n) => !HasValue(options, DecimalString(n))
      case Bool(_) => true
      case _ => HasValue(options, "")
  }

  /**
   * Text and Color keep `item[field] || ""`; the value true, and for Text a
   * string with a line break the input drops, then read back as changed.
   */
  lemma TextChangeAfterLoad(kind: EditorKind, v: JsValue)
    requires kind.Text? || kind.Color?
    ensures var d := Or(v, Str("")); StringChanged(Rendered(kind, d), d) <==> ReportsChangeAfterLoad(kind, [], v)
  {
    match v
    case Num(n) => if n != 0 { LooseEqDecimal(n); DecimalDisplayable(kind, n); }
    case Bool(b) => if b { BoolTextChanged(kind, b); }
    case Str(s) => RenderedKeeps(kind, s);
    case _ =>
  }

  /** Date and LongText keep the raw value; the text of a boolean reads back as changed. */
  lemma RawChangeAfterLoad(kind: EditorKind, v: JsValue)
    requires kind.Date? || kind.LongText?
    ensures StringChanged(Rendered(kind, v), v) <==> ReportsChangeAfterLoad(kind, [], v)
  {
    match v
    case Num(n) => LooseEqDecimal(n); DecimalDisplayable(kind, n);
    case Bool(b) => BoolTextChanged(kind, b);
    case Str(s) => RenderedKeeps(kind, s);
    case _ =>
  }

  /** IntegerEditor never reports a change right after loading, whatever the field holds. */
  lemma IntegerChangeAfterLoad(v: JsValue)
    ensures var d := IntegerDefault(v); !StringChanged(Rendered(Integer, d), d)
  {
    match ParseInt(ToString(v), true)
    case None =>
    case Some(k) => LooseEqDecimal(k); DecimalDisplayable(Integer, k);
  }

  lemma PercentCompleteChangeAfterLoad(v: JsValue)
    ensures PercentCompleteChanged(Rendered(PercentComplete, v), v) <==> ReportsChangeAfterLoad(PercentComplete, [], v)
  {
    match v
    case Num(n) => PercentCompleteNumAfterLoad(n);
    case Bool(b) => PercentCompleteBoolAfterLoad(b);
    case Str(s) => PercentCompleteStrAfterLoad(s);
    case _ =>
      assert Rendered(PercentComplete, v) == "";
  }

  lemma PercentCompleteNumAfterLoad(n: int)
    ensures !PercentCompleteChanged(Rendered(PercentComplete, Num(n)), Num(n))
  {
    ParseIntDecimal(n, false);
    DecimalDisplayable(PercentComplete, n);
  }

  /** A boolean shows as "true" or "false", which reads as 0: only true then differs. */
  lemma PercentCompleteBoolAfterLoad(b: bool)
    ensures PercentCompleteChanged(Rendered(PercentComplete, Bool(b)), Bool(b)) <==> b
  {
    BoolTextPlain(PercentComplete, b);
    ZeroAgainstBool(Rendered(PercentComplete, Bool(b)), b);
  }

  /** Text that parses to 0 differs from true and equals false. */
  lemma ZeroAgainstBool(t: string, b: bool)
    requires ParseIntOrZero(t) == 0
    ensures PercentCompleteChanged(t, Bool(b)) <==> b
  {
    assert ToNumberOf(Num(0)) == Integral(0);
  }

  lemma PercentCompleteStrAfterLoad(s: string)
    ensures PercentCompleteChanged(Rendered(PercentComplete, Str(s)), Str(s)) <==>
              ToNumber(s) != Integral(ParseIntOrZero(StripLineBreaks(s)))
  {
    assert Rendered(PercentComplete, Str(s)) == StripLineBreaks(s);
    assert ToNumberOf(Str(s)) == ToNumber(s);
  }

  /**
   * Every control keeps the text of a boolean, which is no number: Number()
   * gives NaN and parseInt-or-0 gives 0.
   */
  lemma BoolTextPlain(kind: EditorKind, b: bool)
    ensures Rendered(kind, Bool(b)) == ToString(Bool(b))
    ensures ToNumber(ToString(Bool(b))) == NaN
    ensures ParseIntOrZero(Rendered(kind, Bool(b))) == 0
  {
    var t := ToString(Bool(b));
    if b {
      assert t == "true";
      LowerCaseWordIsNaN("true", false);
    } else {
      assert t == "false";
      LowerCaseWordIsNaN("false", false);
    }
    assert !HasLineBreak(t);
  }

  /** So a text-control editor whose default is a boolean reads back as changed. */
  lemma BoolTextChanged(kind: EditorKind, b: bool)
    ensures StringChanged(Rendered(kind, Bool(b)), Bool(b))
  {
    BoolTextPlain(kind, b);
    NaNTextChanged(Rendered(kind, Bool(b)), Bool(b));
  }

  /** Text that is no number differs loosely from every boolean and number. */
  lemma NaNTextChanged(t: string, d: JsValue)
    requires ToNumber(t) == NaN && (d.Bool? || d.Num?)
    ensures StringChanged(t, d)
  {
    assert ToNumberOf(Str(t)) == NaN;
  }

  /** YesNoSelectEditor compares "yes"/"no" with the raw default: only the string "yes" reads back as unchanged. */
  lemma YesNoChangeAfterLoad(v: JsValue)
    ensures var c := FirstMatch(YesNoOptions, if Truthy(v) then "yes" else "no");
            !LooseEq(SelectedValue(YesNoOptions, c), v) <==> v != Str("yes")
  {
    YesNoSelection();
    var w := if Truthy(v) then "yes" else "no";
    assert SelectedValue(YesNoOptions, FirstMatch(YesNoOptions, w)) == Str(w);
    LowerCaseWordIsNaN(w, false);
  }

  /** "yes" selects the first option and "no" the second. */
  lemma YesNoSelection()
    ensures FirstMatch(YesNoOptions, "yes") == Some(0)
    ensures FirstMatch(YesNoOptions, "no") == Some(1)
  {
    assert FirstMatch(YesNoOptions[1..], "no") == Some(0);
  }

  lemma SelectChangeAfterLoad(options: seq<SelectOption>, v: JsValue)
    ensures !LooseEq(SelectedValue(options, SelectionFor(options, v)), v) <==>
              ReportsChangeAfterLoad(SelectCell, options, v)
  {
    match v
    case Num(n) => SelectNumAfterLoad(options, n);
    case Str(s) => SelectStrAfterLoad(options, s);
    case Bool(_) =>
      assert SelectionFor(options, v) == None;
    case _ =>
      assert ControlText(v) == "";
  }

  /** A number selects the option keyed by its decimal text, which equals it loosely. */
  lemma SelectNumAfterLoad(options: seq<SelectOption>, n: int)
    ensures !LooseEq(SelectedValue(options, SelectionFor(options, Num(n))), Num(n)) <==>
              !HasValue(options, DecimalString(n))
  {
    var r := SelectionFor(options, Num(n));
    assert ControlText(Num(n)) == DecimalString(n);
    if r.Some? {
      assert SelectedValue(options, r) == Str(DecimalString(n));
      LooseEqDecimal(n);
    }
  }

  /** A string selects the option keyed by it, and only that option's value equals it. */
  lemma SelectStrAfterLoad(options: seq<SelectOption>, s: string)
    ensures !LooseEq(SelectedValue(options, SelectionFor(options, Str(s))), Str(s)) <==> !HasValue(options, s)
  {
    var r := SelectionFor(options, Str(s));
    assert ControlText(Str(s)) == s;
    if r.Some? {
      assert SelectedValue(options, r) == Str(s);
    }
  }

  /** isValueChanged right after loadValue(v) is exactly ReportsChangeAfterLoad, for every editor. */
  lemma ChangeAfterLoad(kind: EditorKind, options: seq<SelectOption>, stringToBoolean: JsValue -> bool,
                        c: Control, v: JsValue)
    requires kind.YesNoSelect? ==> options == YesNoOptions
    ensures var d := LoadDefault(kind, stringToBoolean, v);
            Changed(kind, options, LoadControl(kind, options, c, d), d) == ReportsChangeAfterLoad(kind, options, v)
  {
    match kind
    case Text => TextChangeAfterLoad(kind, v);
    case Color => TextChangeAfterLoad(kind, v);
    case Date => RawChangeAfterLoad(kind, v);
    case LongText => RawChangeAfterLoad(kind, v);
    case Integer => IntegerChangeAfterLoad(v);
    case PercentComplete => PercentCompleteChangeAfterLoad(v);
    case YesNoSelect => YesNoChangeAfterLoad(v);
    case SelectCell => SelectChangeAfterLoad(options, v);
    case _ =>
  }

  // ---------------------------------------------------------------------------
  // applyValue(item, serializeValue()) followed by loadValue(item)

  /**
   * Storing what a text-control editor serialises and loading it again shows the
   * same text, except that Integer and PercentComplete show the canonical
   * decimal of the stored integer.
   */
  lemma TextRoundTrip(kind: EditorKind, stringToBoolean: JsValue -> bool, options: seq<SelectOption>, c: Control)
    requires kind.HasTextControl() && Displayable(kind, c.text)
    ensures var d := LoadDefault(kind, stringToBoolean, Serialize(kind, false, options, c));
            LoadControl(kind, options, c, d).text ==
              if kind.Integer? || kind.PercentComplete? then DecimalString(ParseIntOrZero(c.text)) else c.text
  {
    if kind.Integer? || kind.PercentComplete? {
      ParseIntDecimal(ParseIntOrZero(c.text), true);
      DecimalDisplayable(kind, ParseIntOrZero(c.text));
    } else {
      RenderedKeeps(kind, c.text);
    }
  }

  /** So an Integer control holding the decimal form of a number survives the round trip unchanged. */
  lemma IntegerCanonicalRoundTrip(stringToBoolean: JsValue -> bool, n: int, c: Control)
    requires c.text == DecimalString(n)
    ensures var d := LoadDefault(Integer, stringToBoolean, Serialize(Integer, false, [], c));
            LoadControl(Integer, [], c, d).text == c.text
  {
    ParseIntDecimal(n, false);
    DecimalDisplayable(Integer, n);
    TextRoundTrip(Integer, stringToBoolean, [], c);
  }

  /** A Yes/No choice survives storing its boolean and loading it again. */
  lemma YesNoRoundTrip(stringToBoolean: JsValue -> bool, c: Control)
    requires c.selected == Some(0) || c.selected == Some(1)
    ensures var d := LoadDefault(YesNoSelect, stringToBoolean, Serialize(YesNoSelect, false, YesNoOptions, c));
            LoadControl(YesNoSelect, YesNoOptions, c, d).selected == c.selected
  {
    YesNoSelection();
  }

  /** A checkbox survives the round trip when the page's stringToBoolean maps each boolean to itself. */
  lemma CheckboxRoundTrip(stringToBoolean: JsValue -> bool, c: Control)
    requires stringToBoolean(Bool(c.checked)) == c.checked
    ensures var d := LoadDefault(Checkbox, stringToBoolean, Serialize(Checkbox, false, [], c));
            LoadControl(Checkbox, [], c, d).checked == c.checked
  {
  }

  /**
   * A SelectCell editor with options stores the selected option's label; when
   * no option has that label as its value, loading it again selects nothing.
   */
  lemma SelectReloadsLabel(options: seq<SelectOption>, i: nat, c: Control)
    requires i < |options| && c.selected == Some(i)
    requires !HasValue(options, options[i].text)
    ensures Serialize(SelectCell, true, options, c) == Str(options[i].text)
    ensures LoadControl(SelectCell, options, c, Serialize(SelectCell, true, options, c)).selected == None
  {
  }

  /**
   * Two options with the same key: loading that key selects the first of them,
   * so a configured SelectCell stores the first one's label.
   */
  lemma DuplicateKeySelectsFirst(c: Control)
    ensures var options := [SelectOption("a", "A1"), SelectOption("a", "A2")];
            var loaded := LoadControl(SelectCell, options, c, Str("a"));
            loaded.selected == Some(0) && Serialize(SelectCell, true, options, loaded) == Str("A1")
  {
    var options := [SelectOption("a", "A1"), SelectOption("a", "A2")];
    assert ControlText(Str("a")) == "a";
    assert FirstMatch(options, "a") == Some(0);
  }

  /** Without `column.options` there is no option, so a SelectCell editor always stores false. */
  lemma UnconfiguredSelectStoresFalse(c: Control)
    ensures Serialize(SelectCell, false, [], c) == Bool(false)
  {
  }

  /**
   * The integer editor validates with `isNaN` but stores `parseInt(text, 10) || 0`:
   * "1.5" passes and is stored as 1.
   */
  lemma IntegerAcceptsFraction(c: Control)
    ensures Validate(Integer, None, "1.5") == Accepted
    ensures Serialize(Integer, false, [], c.(text := "1.5")) == Num(1)
  {
    FractionTextNumber();
    ParseIntStopsAtDot();
  }

  /** "0x10" passes (Number reads it as 16) and is stored as 0 (parseInt with radix 10 stops at the x). */
  lemma IntegerAcceptsHex(c: Control)
    ensures Validate(Integer, None, "0x10") == Accepted
    ensures Serialize(Integer, false, [], c.(text := "0x10")) == Num(0)
  {
    HexTextNumber();
    ParseIntStopsAtX();
  }

  /** A word fails the integer editor's validation and is stored as 0. */
  lemma IntegerRejectsWord(c: Control)
    ensures Validate(Integer, None, "abc") == ValidationResult(false, Some("Please enter a valid integer"))
    ensures Serialize(Integer, false, [], c.(text := "abc")) == Num(0)
  {
    LowerCaseWordIsNaN("abc", false);
  }

  /** An empty control passes the integer editor (Number("") is 0) but not the percent-complete editor. */
  lemma EmptyControlValidation(validator: Option<string -> ValidationResult>)
    ensures Validate(Integer, validator, "") == Accepted
    ensures Validate(PercentComplete, validator, "") ==
              ValidationResult(false, Some("Please enter a valid positive number"))
  {
  }

  // ---------------------------------------------------------------------------
  // PercentCompleteEditor's preset buttons

  datatype Preset = NotStarted | InProgress | Complete

  /** The `val` attribute of the button: 0, 50 or 100. */
  function PresetAmount(p: Preset): (r: nat)
    ensures r == 0 || r == 50 || r == 100
    ensures p.NotStarted? <==> r == 0
    ensures p.InProgress? <==> r == 50
    ensures p.Complete? <==> r == 100
  {
    match p
    case NotStarted => 0
    case InProgress => 50
    case Complete => 100
  }

  /** A preset button's text is accepted and stored as its amount. */
  lemma PresetAccepted(p: Preset, c: Control)
    requires c.text == DecimalString(PresetAmount(p))
    ensures Validate(PercentComplete, None, c.text) == Accepted
    ensures Serialize(PercentComplete, false, [], c) == Num(PresetAmount(p))
  {
    ParseIntDecimal(PresetAmount(p), false);
  }

  // ---------------------------------------------------------------------------
  // LongTextEditor's keys (jQuery UI key codes)

  const KeyTab := 9
  const KeyEnter := 13
  const KeyEscape := 27

  datatype KeyEvent = KeyEvent(which: int, ctrlKey: bool, shiftKey: bool)

  /** The host callbacks a detached editor can invoke. */
  datatype HostCall = NoCall | CommitChanges | CancelChanges | NavigatePrev | NavigateNext

  datatype KeyResponse = KeyResponse(call: HostCall, preventDefault: bool)

  /**
   * `handleKeyDown`: Ctrl+Enter commits, Escape cancels, Shift+Tab goes to the
   * previous cell (tested before Tab), Tab to the next; every handled key but
   * Ctrl+Enter suppresses the browser's default.
   */
  function LongTextKeyDown(e: KeyEvent): (r: KeyResponse)
    ensures r.call == CommitChanges <==> e.which == KeyEnter && e.ctrlKey
    ensures r.call == CancelChanges <==> e.which == KeyEscape
    ensures r.call == NavigatePrev <==> e.which == KeyTab && e.shiftKey
    ensures r.call == NavigateNext <==> e.which == KeyTab && !e.shiftKey
    ensures r.preventDefault <==> (e.which == KeyEscape || e.which == KeyTab)
  {
    if e.which == KeyEnter && e.ctrlKey then KeyResponse(CommitChanges, false)
    else if e.which == KeyEscape then KeyResponse(CancelChanges, true)
    else if e.which == KeyTab && e.shiftKey then KeyResponse(NavigatePrev, true)
    else if e.which == KeyTab then KeyResponse(NavigateNext, true)
    else KeyResponse(NoCall, false)
  }

  // ---------------------------------------------------------------------------
  // Detached widgets (the datepicker panel, the colour picker)

  datatype Box = Box(top: int, left: int)

  /** A call the editor makes on its third-party widget. */
  datatype WidgetCall = InitWidget | ShowWidget | HideWidget | MoveWidget(top: int, left: int) | DestroyWidget

  /** Whether the colour picker is open after the calls in log: the last init, hide or destroy decides. */
  function PickerOpen(log: seq<WidgetCall>): (r: bool)
    ensures log == [] ==> !r
    ensures log != [] && log[|log| - 1] == InitWidget ==> r
    ensures log != [] && (log[|log| - 1] == HideWidget || log[|log| - 1] == DestroyWidget) ==> !r
    ensures log != [] && log[|log| - 1] != InitWidget && log[|log| - 1] != HideWidget && log[|log| - 1] != DestroyWidget
      ==> r == PickerOpen(log[..|log| - 1])
  {
    if log == [] then false
    else match log[|log| - 1]
      case InitWidget => true
      case HideWidget => false
      case DestroyWidget => false
      case _ => PickerOpen(log[..|log| - 1])
  }

  /** The picker is never initialised again while it is open. */
  predicate InitsOnlyWhenClosed(log: seq<WidgetCall>) {
    forall i :: 0 <= i < |log| && log[i] == InitWidget ==> !PickerOpen(log[..i])
  }

  /** Appending one call keeps InitsOnlyWhenClosed unless it initialises an open picker. */
  lemma AppendWidgetCall(log: seq<WidgetCall>, call: WidgetCall)
    requires InitsOnlyWhenClosed(log)
    requires call == InitWidget ==> !PickerOpen(log)
    ensures InitsOnlyWhenClosed(log + [call])
  {
    var log' := log + [call];
    forall i | 0 <= i < |log'| && log'[i] == InitWidget
      ensures !PickerOpen(log'[..i])
    {
      if i < |log| {
        assert log'[..i] == log[..i];
        assert log[i] == InitWidget;
      } else {
        assert log'[..i] == log;
      }
    }
  }

  /** The widget calls `destroy` makes: the datepicker is hidden and destroyed, the picker destroyed. */
  function DestroyCalls(kind: EditorKind): (r: seq<WidgetCall>)
    ensures r != [] <==> kind.Date? || kind.Color?
    ensures r != [] ==> r[|r| - 1] == DestroyWidget
    ensures InitWidget !in r && ShowWidget !in r
    ensures kind.Date? ==> r == [HideWidget, DestroyWidget]
  {
    match kind
    case Date => [HideWidget, DestroyWidget]
    case Color => [DestroyWidget]
    case _ => []
  }

  /**
   * The widget calls `show` makes: the datepicker panel is shown only while the
   * calendar is open; the colour picker is initialised first unless it is open,
   * and always shown.
   */
  function ShowCalls(kind: EditorKind, open: bool): (r: seq<WidgetCall>)
    ensures r != [] ==> kind.Date? || kind.Color?
    ensures kind.Date? ==> (r != [] <==> open)
    ensures kind.Date? && open ==> r == [ShowWidget]
    ensures kind.Color? ==> |r| > 0 && r[|r| - 1] == ShowWidget && (InitWidget in r <==> !open)
    ensures HideWidget !in r && DestroyWidget !in r
  {
    match kind
    case Date => if open then [ShowWidget] else []
    case Color => (if open then [] else [InitWidget]) + [ShowWidget]
    case _ => []
  }

  /** The widget calls `hide` makes: both widgets are hidden only while open. */
  function HideCalls(kind: EditorKind, open: bool): (r: seq<WidgetCall>)
    ensures r == [] || r == [HideWidget]
    ensures r != [] <==> open && (kind.Date? || kind.Color?)
  {
    match kind
    case Date => if open then [HideWidget] else []
    case Color => if open then [HideWidget] else []
    case _ => []
  }

  /** The widget calls `position(p)` makes: the open datepicker panel moves 30 pixels below p. */
  function PositionCalls(kind: EditorKind, open: bool, p: Box): (r: seq<WidgetCall>)
    ensures r != [] <==> kind.Date? && open
    ensures forall i :: 0 <= i < |r| ==> r[i] == MoveWidget(p.top + 30, p.left)
  {
    match kind
    case Date => if open then [MoveWidget(p.top + 30, p.left)] else []
    case _ => []
  }

  /** The picker's open flag and log agree; no init was issued to an open picker. */
  predicate PickerTracked(open: bool, log: seq<WidgetCall>) {
    open == PickerOpen(log) && InitsOnlyWhenClosed(log)
  }

  /** The colour editor's show leaves the picker open and never initialises it twice. */
  lemma ColorShowKeepsPicker(open: bool, log: seq<WidgetCall>)
    requires PickerTracked(open, log)
    ensures PickerTracked(true, log + ShowCalls(Color, open))
  {
    if open {
      AppendWidgetCall(log, ShowWidget);
      assert log + ShowCalls(Color, open) == log + [ShowWidget];
      assert PickerOpen(log + [ShowWidget]) == PickerOpen(log);
    } else {
      AppendWidgetCall(log, InitWidget);
      AppendWidgetCall(log + [InitWidget], ShowWidget);
      assert (log + [InitWidget]) + [ShowWidget] == log + ShowCalls(Color, open);
      assert PickerOpen(log + [InitWidget] + [ShowWidget]) == PickerOpen(log + [InitWidget]);
    }
  }

  /** After a show, a second show issues no init: the picker is set up once. */
  lemma ColorSecondShowSkipsInit(open: bool, log: seq<WidgetCall>)
    requires PickerTracked(open, log)
    ensures ShowCalls(Color, PickerOpen(log + ShowCalls(Color, open))) == [ShowWidget]
  {
    ColorShowKeepsPicker(open, log);
  }

  /** The colour editor's hide leaves the picker closed. */
  lemma ColorHideKeepsPicker(open: bool, log: seq<WidgetCall>)
    requires PickerTracked(open, log)
    ensures PickerTracked(false, log + HideCalls(Color, open))
  {
    if open {
      AppendWidgetCall(log, HideWidget);
    } else {
      assert log + HideCalls(Color, open) == log;
    }
  }

  /** The colour editor's destroy leaves the picker closed. */
  lemma ColorDestroyKeepsPicker(open: bool, log: seq<WidgetCall>)
    requires PickerTracked(open, log)
    ensures PickerTracked(false, log + DestroyCalls(Color))
  {
    AppendWidgetCall(log, DestroyWidget);
  }

  /** The picker is tracked from the start: the colour editor's init (a show on a closed picker). */
  lemma ColorInitTracked()
    ensures ShowCalls(Color, false) == [InitWidget, ShowWidget]
    ensures PickerTracked(true, ShowCalls(Color, false))
  {
    ColorShowKeepsPicker(false, []);
    assert [] + ShowCalls(Color, false) == ShowCalls(Color, false);
  }
}
