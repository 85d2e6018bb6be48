/** AbstractColorPickerField: a field whose value is a nullable colour,
    shown through a wrapped colour picker that always needs a colour. The
    model keeps the field's own state: the value, the colour standing for
    null, the default colour and the popup position. */
module ColorPickerField {
  import opened Conversion
  import opened Lexical
  import opened VaadinColor

  /** A Java int. */
  type Int32 = x: int | JavaIntMin <= x <= JavaIntMax

  /** The class of the wrapped picker (a `Class<COLOR_PICKER>`). */
  datatype PickerType = PickerType(name: string)

  /** A colour change reported by a component, which is named by identity. */
  datatype ColorChangeEvent = ColorChangeEvent(component: nat, color: Option<Color>)

  /** DEFAULT_POPUP_CAPTION. */
  const DefaultPopupCaption: string := "Colors"

  class AbstractColorPickerField {
    const pickerType: PickerType
    /** The identity of the wrapped picker, `getContent()`. */
    const content: nat
    var value: Option<Color>
    var defaultColor: Color
    var nullRepresentation: Option<Color>
    var popupCaption: Option<string>
    var positionX: Int32
    var positionY: Int32

    /** The constructor after its null check: the given caption and initial
        value, white as default colour, no null representation, position
        (0, 0). */
    constructor(pickerType: PickerType, popupCaption: Option<string>, initialColor: Option<Color>, content: nat)
      ensures this.pickerType == pickerType && this.content == content
      ensures this.popupCaption == popupCaption && value == initialColor
      ensures defaultColor == White && nullRepresentation.None?
      ensures positionX == 0 && positionY == 0
    {
      this.pickerType := pickerType;
      this.content := content;
      this.popupCaption := popupCaption;
      value := initialColor;
      defaultColor := White;
      nullRepresentation := None;
      positionX := 0;
      positionY := 0;
    }

    /** The colour the picker shows for a field value: the value itself, or
        for null the null representation if set and the default colour
        otherwise. It is never null. */
    function GetClientColor(color: Option<Color>): (shown: Color)
      reads this
      ensures color.Some? ==> shown == color.value
      ensures color.None? ==> shown == if nullRepresentation.Some? then nullRepresentation.value else defaultColor
    {
      match color
      case Some(c) => c
      case None => if nullRepresentation.Some? then nullRepresentation.value else defaultColor
    }

    /** `colorChanged`: an event from any component but the wrapped picker
        is refused (UnsupportedOperationException, `accepted` false) and
        nothing changes. Otherwise the field stores null for a null colour
        or one equal to the null representation, and the colour otherwise;
        either way the picker goes on showing the colour it reported. */
    method ColorChanged(event: ColorChangeEvent) returns (accepted: bool)
      modifies this`value
      ensures accepted <==> event.component == content
      ensures !accepted ==> value == old(value)
      ensures accepted ==>
                value == if event.color.None? || event.color == nullRepresentation then None else event.color
      ensures accepted ==> GetClientColor(value) == GetClientColor(event.color)
      ensures accepted ==> value.None? || value != nullRepresentation
    {
      if event.component != content {
        return false;
      }
      var newValue := event.color;
      var v: Option<Color> := None;
      if newValue.Some? && (nullRepresentation.None? || nullRepresentation != newValue) {
        v := newValue;
      }
      value := v;
      accepted := true;
    }

    /** `setDefaultColor`: null is refused (NullPointerException, `ok`
        false) and the default colour stays as it was. */
    method SetDefaultColor(color: Option<Color>) returns (ok: bool)
      modifies this`defaultColor
      ensures ok <==> color.Some?
      ensures ok ==> defaultColor == color.value
      ensures !ok ==> defaultColor == old(defaultColor)
    {
      if color.None? {
        return false;
      }
      defaultColor := color.value;
      ok := true;
    }

    method SetNullRepresentation(color: Option<Color>)
      modifies this`nullRepresentation
      ensures nullRepresentation == color
    {
      nullRepresentation := color;
    }

    /** `setPopupCaption`: stores the caption; the warning it logs once the
        picker exists is not modelled. */
    method SetPopupCaption(caption: Option<string>)
      modifies this`popupCaption
      ensures popupCaption == caption
    {
      popupCaption := caption;
    }

    method SetPositionX(x: Int32)
      modifies this`positionX
      ensures positionX == x
    {
      positionX := x;
    }

    method SetPositionY(y: Int32)
      modifies this`positionY
      ensures positionY == y
    {
      positionY := y;
    }

    method SetPosition(x: Int32, y: Int32)
      modifies this`positionX, this`positionY
      ensures positionX == x && positionY == y
    {
      positionX := x;
      positionY := y;
    }
  }

  /** The three-argument constructor: a null picker type throws
      NullPointerException (None here); otherwise a fresh field. */
  method Create(pickerType: Option<PickerType>, popupCaption: Option<string>, initialColor: Option<Color>, content: nat)
    returns (field: Option<AbstractColorPickerField>)
    ensures pickerType.None? <==> field.None?
    ensures field.Some? ==> fresh(field.value)
    ensures field.Some? ==> field.value.pickerType == pickerType.value && field.value.content == content
    ensures field.Some? ==> field.value.popupCaption == popupCaption && field.value.value == initialColor
    ensures field.Some? ==> field.value.defaultColor == White && field.value.nullRepresentation.None?
    ensures field.Some? ==> field.value.positionX == 0 && field.value.positionY == 0
  {
    if pickerType.None? {
      return None;
    }
    var f := new AbstractColorPickerField(pickerType.value, popupCaption, initialColor, content);
    field := Some(f);
  }

  /** The two-argument constructor: the given caption and white. */
  method CreateWithCaption(pickerType: Option<PickerType>, popupCaption: Option<string>, content: nat)
    returns (field: Option<AbstractColorPickerField>)
    ensures pickerType.None? <==> field.None?
    ensures field.Some? ==> fresh(field.value)
    ensures field.Some? ==> field.value.pickerType == pickerType.value && field.value.content == content
    ensures field.Some? ==> field.value.popupCaption == popupCaption && field.value.value == Some(White)
    ensures field.Some? ==> field.value.defaultColor == White && field.value.nullRepresentation.None?
    ensures field.Some? ==> field.value.positionX == 0 && field.value.positionY == 0
  {
    field := Create(pickerType, popupCaption, Some(White), content);
  }

  /** The one-argument constructor: DEFAULT_POPUP_CAPTION and white. */
  method CreateDefault(pickerType: Option<PickerType>, content: nat) returns (field: Option<AbstractColorPickerField>)
    ensures pickerType.None? <==> field.None?
    ensures field.Some? ==> fresh(field.value)
    ensures field.Some? ==> field.value.pickerType == pickerType.value && field.value.content == content
    ensures field.Some? ==> field.value.popupCaption == Some(DefaultPopupCaption) && field.value.value == Some(White)
    ensures field.Some? ==> field.value.defaultColor == White && field.value.nullRepresentation.None?
    ensures field.Some? ==> field.value.positionX == 0 && field.value.positionY == 0
  {
    field := Create(pickerType, Some(DefaultPopupCaption), Some(White), content);
  }
}
