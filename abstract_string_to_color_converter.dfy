/** AbstractStringToColorConverter: a String <-> Color converter built from
    two hooks, `serialize` and `unserialize`, with null passed through. */
module AbstractStringToColorConverter {
  import opened Conversion
  import opened VaadinColor

  /** The two hooks a concrete subclass supplies. */
  datatype Hooks = Hooks(serialize: Color -> Result<string>, unserialize: string -> Result<Color>)

  /** The documented obligation on the hooks: every text `serialize` writes
      is one `unserialize` accepts. */
  ghost predicate HonoursContract(hooks: Hooks) {
    forall c: Color :: hooks.serialize(c).Ok? ==> hooks.unserialize(hooks.serialize(c).value).Ok?
  }

  /** `convertToModel`: null stays null, a text goes to `unserialize`. */
  function ConvertToModel(hooks: Hooks, value: Option<string>): (r: Result<Option<Color>>)
    ensures value.None? ==> r == Ok(None)
    ensures value.Some? ==> (r.Ok? <==> hooks.unserialize(value.value).Ok?)
    ensures value.Some? && r.Ok? ==> r.value == Some(hooks.unserialize(value.value).value)
    ensures r.Err? ==> value.Some? && r.error == hooks.unserialize(value.value).error
  {
    NullSafe(hooks.unserialize, value)
  }

  /** `convertToPresentation`: null stays null, a colour goes to `serialize`. */
  function ConvertToPresentation(hooks: Hooks, value: Option<Color>): (r: Result<Option<string>>)
    ensures value.None? ==> r == Ok(None)
    ensures value.Some? ==> (r.Ok? <==> hooks.serialize(value.value).Ok?)
    ensures value.Some? && r.Ok? ==> r.value == Some(hooks.serialize(value.value).value)
    ensures r.Err? ==> value.Some? && r.error == hooks.serialize(value.value).error
  {
    NullSafe(hooks.serialize, value)
  }

  /** With hooks that honour their contract, whatever `convertToPresentation`
      returns `convertToModel` accepts, null included. */
  lemma PresentationIsAccepted(hooks: Hooks, value: Option<Color>)
    requires HonoursContract(hooks)
    requires ConvertToPresentation(hooks, value).Ok?
    ensures ConvertToModel(hooks, ConvertToPresentation(hooks, value).value).Ok?
    ensures value.None? <==> ConvertToModel(hooks, ConvertToPresentation(hooks, value).value) == Ok(None)
  {
  }
}
