/** The number field type.  Its class tag is `"text"`, so its definition check
    accepts `type: "text"` and refuses `type: "number"`. */
module NumberFieldType {
  import opened Common
  import opened PyValue
  import opened SchemaBase

  /** `NumberField.validate`: `None`, an int or a float; a bool is an int. */
  function Validate(value: Value, fd: Dict): (r: Result<(), Error>)
    ensures r.Success? <==> value.Null? || IsNumber(value)
    ensures r.Failure? ==> r == Reject(fd, [Lit(" must be a number")])
  {
    if value.Null? || IsNumber(value) then Success(())
    else Reject(fd, [Lit(" must be a number")])
  }

  /** Booleans pass as numbers; numeric strings do not. */
  lemma ValidateExamples(fd: Dict)
    ensures Validate(Bool(true), fd).Success? && Validate(Float(2.5), fd).Success?
    ensures Validate(Str("3"), fd).Failure?
  {
  }

  /** `NumberField.clean_definition`: the base check with the class tag. */
  function CleanDefinition(fd: Dict): (r: Result<Dict, Error>)
    ensures r.Success? <==> WellFormedDefinition("text", fd)
    ensures r.Success? ==> r.value == fd
  {
    SchemaBase.CleanDefinition(TypeTag(NumberField), fd)
  }

  /** A number definition written with `type: "number"` is refused with the
      type-mismatch message, and the same definition with `type: "text"` is
      accepted. */
  lemma NumberTagIsText(fd: Dict)
    requires WellFormedDefinition("text", fd)
    ensures CleanDefinition(fd["type" := Str("number")]) == Failure(TypeMismatch(Str("number"), "text"))
    ensures CleanDefinition(fd).Success?
  {
    var g := fd["type" := Str("number")];
    assert "name" in g && "label" in g && "type" in g && g["type"] != Str("text");
  }
}
