/** The dropdown field type: a definition carries a non-empty `choices` list
    and a value must be one of the choices. */
module DropdownFieldType {
  import opened Common
  import opened PyString
  import opened PyValue
  import opened SchemaBase

  const NoChoices := ValidationError([Lit("Dropdown field must define a non-empty 'choices' list.")])

  /** A definition whose `choices` is a non-empty list. */
  predicate HasChoices(fd: Dict)
  {
    "choices" in fd && fd["choices"].List? && fd["choices"].items != []
  }

  /** `DropdownField.clean_definition`: the base check with the tag
      `"dropdown"`, then the choices. */
  function CleanDefinition(fd: Dict): (r: Result<Dict, Error>)
    ensures r.Success? <==> WellFormedDefinition("dropdown", fd) && HasChoices(fd)
    ensures r.Success? ==> r.value == fd
    ensures SchemaBase.CleanDefinition("dropdown", fd).Failure? ==> r == SchemaBase.CleanDefinition("dropdown", fd)
    ensures WellFormedDefinition("dropdown", fd) && !HasChoices(fd) ==> r == Failure(NoChoices)
  {
    match SchemaBase.CleanDefinition(TypeTag(DropdownField), fd)
    case Failure(e) => Failure(e)
    case Success(_) =>
      var choices := Get(fd, "choices", Null);
      if !Truthy(choices) || !choices.List? then Failure(NoChoices) else Success(fd)
  }

  /** `value` is `==` to one of `items`. */
  predicate Among(value: Value, items: seq<Value>)
  {
    exists k :: 0 <= k < |items| && PyEq(value, items[k])
  }

  /** `DropdownField.validate`.  The membership test runs over
      `field_def.get("choices", [])`, so it raises `TypeError` where Python's
      `in` does; the message then reads `field_def['name']` and
      `field_def['choices']`, in that order, each a `KeyError` when missing. */
  function Validate(value: Value, fd: Dict): (r: Result<(), Error>)
    ensures value.Null? ==> r.Success?
    ensures !value.Null? && "choices" in fd && fd["choices"].List? ==>
              (r.Success? <==> Among(value, fd["choices"].items))
    ensures !value.Null? && "choices" !in fd ==>
              r == Failure(KeyError(if "name" in fd then "choices" else "name"))
    ensures !value.Null? && "choices" in fd && fd["choices"].Str? ==>
              && (value.Str? ==> (r.Success? <==> IsSubstring(value.s, fd["choices"].s)))
              && (!value.Str? ==> r == Failure(TypeError))
    ensures !value.Null? && "choices" in fd && fd["choices"].Dict? ==>
              && ((value.List? || value.Dict?) ==> r == Failure(TypeError))
              && (!(value.List? || value.Dict?) ==> (r.Success? <==> value.Str? && value.s in fd["choices"].entries))
    ensures !value.Null? && "choices" in fd && !(fd["choices"].List? || fd["choices"].Str? || fd["choices"].Dict?) ==>
              r == Failure(TypeError)
    ensures r.Failure? && "name" in fd && "choices" in fd && r.error.ValidationError? ==>
              r.error.message == [Shown(fd["name"]), Lit(" must be one of "), Shown(fd["choices"]), Lit(".")]
  {
    if value.Null? then Success(())
    else
      match Contains(Get(fd, "choices", List([])), value)
      case Failure(e) => Failure(e)
      case Success(found) =>
        if found then Success(())
        else
          match Lookup(fd, "name")
          case Failure(e) => Failure(e)
          case Success(name) =>
            match Lookup(fd, "choices")
            case Failure(e) => Failure(e)
            case Success(choices) =>
              Failure(ValidationError([Shown(name), Lit(" must be one of "), Shown(choices), Lit(".")]))
  }

  /** Every choice of a definition is itself an accepted value. */
  lemma ChoiceIsAccepted(fd: Dict, k: nat)
    requires HasChoices(fd) && k < |fd["choices"].items|
    ensures Validate(fd["choices"].items[k], fd).Success?
  {
    var items := fd["choices"].items;
    PyEqReflexive(items[k]);
    assert Among(items[k], items);
  }

  /** Once a definition has been cleaned, checking a value never raises
      anything but a `ValidationError`, and it passes exactly when the value is
      `None` or equal to a choice. */
  lemma {:induction false} CleanedDefinitionValidates(fd: Dict, value: Value)
    requires CleanDefinition(fd).Success?
    ensures Validate(value, fd).Success? <==> value.Null? || Among(value, fd["choices"].items)
    ensures Validate(value, fd).Failure? ==>
              Validate(value, fd) == Failure(ValidationError([Shown(fd["name"]), Lit(" must be one of "), Shown(fd["choices"]), Lit(".")]))
  {
    assert HasChoices(fd) && "name" in fd;
  }
}
