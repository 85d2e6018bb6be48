/** Outcomes shared by every converter: an optional (nullable) value and the
    result of a conversion, which either holds a value or the reason the
    converter threw a ConversionException. */
module Conversion {

  /** A Java reference that may be null. */
  datatype Option<+T> = None | Some(value: T)

  /** The notation a converter was asked to read. */
  datatype Notation = HexNotation | RgbNotation | RgbaNotation

  /** The cause carried by a ConversionException, one per message the
      converters build. */
  datatype ConversionError =
    | NoMatch(input: string, notation: Notation)   // "Could not convert '…' to a css … color"
    | NotAnInteger(text: string)                   // "Can't convert color string '…' to integer"
    | NotADouble(text: string)                     // "Can't convert color string '…' to double"
    | IllegalColor(value: int)                     // "Illegal value of color '…'" (a channel)
    | IllegalAlpha(alpha: real)                    // "Illegal value of color '…'" (alpha)

  /** A conversion either returns a value or throws a ConversionException. */
  datatype Result<+T> = Ok(value: T) | Err(error: ConversionError) {

    predicate IsFailure() {
      Err?
    }

    function PropagateFailure<U>(): Result<U>
      requires Err?
    {
      Err(error)
    }

    function Extract(): T
      requires Ok?
    {
      value
    }
  }

  /** The null handling every convertToModel / convertToPresentation shares:
      null gives null, anything else is handed to `convert`, and the
      ConversionException it throws propagates unchanged. */
  function NullSafe<A, B>(convert: A -> Result<B>, value: Option<A>): (r: Result<Option<B>>)
    ensures value.None? ==> r == Ok(None)
    ensures value.Some? ==> (r.Ok? <==> convert(value.value).Ok?)
    ensures value.Some? && r.Ok? ==> r.value == Some(convert(value.value).value)
    ensures r.Err? ==> value.Some? && r.error == convert(value.value).error
  {
    match value
    case None => Ok(None)
    case Some(v) =>
      var converted :- convert(v);
      Ok(Some(converted))
  }
}
