/** The text field type: a value is `None` or a string; stored values are read
    back as strings. */
module TextFieldType {
  import opened Common
  import opened PyValue
  import opened SchemaBase

  /** `TextField.validate`. */
  function Validate(value: Value, fd: Dict): (r: Result<(), Error>)
    ensures r.Success? <==> value.Null? || value.Str?
    ensures r.Failure? ==> r == Reject(fd, [Lit(" must be a string")])
  {
    if value.Null? || value.Str? then Success(())
    else Reject(fd, [Lit(" must be a string")])
  }

  /** `TextField.deserialize`: `None` stays `None`; anything else becomes its
      `str()` rendering, given here as `render`, so a string comes back
      unchanged. */
  function Deserialize(value: Value, render: Value -> string): (r: Value)
    ensures value.Null? <==> r.Null?
    ensures !value.Null? ==> r.Str?
    ensures value.Str? ==> r == value
    ensures !value.Null? && !value.Str? ==> r == Str(render(value))
  {
    if value.Null? then Null
    else if value.Str? then value
    else Str(render(value))
  }

  /** Whatever is stored, the value read back passes `Validate`. */
  lemma DeserializedValidates(value: Value, render: Value -> string, fd: Dict)
    ensures Validate(Deserialize(value, render), fd).Success?
  {
  }

  /** Reading back a text value that `Validate` accepted (after the identity
      `serialize`) returns it unchanged, and reading back twice is reading back
      once. */
  lemma RoundTrip(value: Value, render: Value -> string, fd: Dict)
    requires Validate(value, fd).Success?
    ensures Deserialize(Serialize(value), render) == value
    ensures Deserialize(Deserialize(value, render), render) == Deserialize(value, render)
  {
  }

  /** `TextField.clean_definition`: the base check with the tag `"text"`. */
  function CleanDefinition(fd: Dict): (r: Result<Dict, Error>)
    ensures r.Success? <==> WellFormedDefinition("text", fd)
    ensures r.Success? ==> r.value == fd
  {
    SchemaBase.CleanDefinition(TypeTag(TextField), fd)
  }
}
