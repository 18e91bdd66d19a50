/** The common part of every entity-schema field type: the class tags, the
    structural check of a field definition, the record a field instance keeps
    and the dict it exports for templates and JSON. */
module SchemaBase {
  import opened Common
  import opened PyValue

  /** The field classes of the schema registry. */
  datatype FieldClass = TextField | NumberField | DateField | LatLongField | DropdownField | BoolField | ReferenceField

  /** The class attribute `type` of each field class.  The number field
      declares the tag `"text"`, the same as the text field. */
  function TypeTag(cls: FieldClass): string
  {
    match cls
    case TextField => "text"
    case NumberField => "text"
    case DateField => "date"
    case LatLongField => "latlong"
    case DropdownField => "dropdown"
    case BoolField => "bool"
    case ReferenceField => "reference"
  }

  function Missing(key: string): Error
  {
    ValidationError([Lit("Missing '" + key + "' in field definition.")])
  }

  function TypeMismatch(given: Value, tag: string): Error
  {
    ValidationError([Lit("Field definition type '"), Shown(given),
                     Lit("' does not match registered field '" + tag + "'.")])
  }

  const NameNotString := ValidationError([Lit("Field 'name' must be a string.")])
  const LabelNotString := ValidationError([Lit("Field 'label' must be a string.")])
  const RequiredNotBool := ValidationError([Lit("'required' must be a boolean if provided.")])

  /** The three core keys are present and the type is the class tag. */
  predicate WellFormedKeys(tag: string, fd: Dict)
  {
    "name" in fd && "label" in fd && "type" in fd && fd["type"] == Str(tag)
  }

  /** A structurally correct definition for a class with tag `tag`: it has a
      string `name`, a string `label`, a `type` equal to the tag, and a
      `required` that is a bool when present. */
  predicate WellFormedDefinition(tag: string, fd: Dict)
  {
    && "name" in fd && "label" in fd && "type" in fd
    && fd["type"] == Str(tag)
    && fd["name"].Str? && fd["label"].Str?
    && ("required" in fd ==> fd["required"].Bool?)
  }

  /** `BaseSchemaField.clean_definition` for a class whose tag is `tag`. */
  function CleanDefinition(tag: string, fd: Dict): (r: Result<Dict, Error>)
    ensures r.Success? <==> WellFormedDefinition(tag, fd)
    ensures r.Success? ==> r.value == fd
    // the missing keys are reported in the order name, label, type
    ensures "name" !in fd ==> r == Failure(Missing("name"))
    ensures "name" in fd && "label" !in fd ==> r == Failure(Missing("label"))
    ensures "name" in fd && "label" in fd && "type" !in fd ==> r == Failure(Missing("type"))
    // then the tag, then the kinds of name, label and required
    ensures "name" in fd && "label" in fd && "type" in fd && fd["type"] != Str(tag) ==>
              r == Failure(TypeMismatch(fd["type"], tag))
    ensures WellFormedKeys(tag, fd) && !fd["name"].Str? ==> r == Failure(NameNotString)
    ensures WellFormedKeys(tag, fd) && fd["name"].Str? && !fd["label"].Str? ==> r == Failure(LabelNotString)
    ensures WellFormedKeys(tag, fd) && fd["name"].Str? && fd["label"].Str? && "required" in fd && !fd["required"].Bool? ==>
              r == Failure(RequiredNotBool)
    ensures r.Failure? ==>
              r.error in {Missing("name"), Missing("label"), Missing("type"), TypeMismatch(Get(fd, "type", Null), tag),
                          NameNotString, LabelNotString, RequiredNotBool}
  {
    if "name" !in fd then Failure(Missing("name"))
    else if "label" !in fd then Failure(Missing("label"))
    else if "type" !in fd then Failure(Missing("type"))
    else if fd["type"] != Str(tag) then Failure(TypeMismatch(fd["type"], tag))
    else if !fd["name"].Str? then Failure(NameNotString)
    else if !fd["label"].Str? then Failure(LabelNotString)
    else if "required" in fd && !fd["required"].Bool? then Failure(RequiredNotBool)
    else Success(fd)
  }

  /** Raise a `ValidationError` whose message starts with the field's name,
      as the value checks' f-strings do.  Evaluating `field_def['name']`
      raises `KeyError` when the definition has no name. */
  function Reject(fd: Dict, rest: Message): (r: Result<(), Error>)
    ensures "name" in fd ==> r == Failure(ValidationError([Shown(fd["name"])] + rest))
    ensures "name" !in fd ==> r == Failure(KeyError("name"))
  {
    match Lookup(fd, "name")
    case Failure(e) => Failure(e)
    case Success(n) => Failure(ValidationError([Shown(n)] + rest))
  }

  /** `serialize`: the stored form of a value is the value itself. */
  function Serialize(value: Value): (r: Value)
    ensures r == value
  {
    value
  }

  /** `deserialize`: the stored form is read back as it is. */
  function Deserialize(value: Value): (r: Value)
    ensures r == value
  {
    value
  }

  /** A field instance: the core attributes read from the keyword arguments and
      the arguments themselves, kept for type-specific extras. */
  class SchemaField {
    const cls: FieldClass
    var name: Value
    var fieldLabel: Value
    var required: Value
    var definition: Dict

    /** `__init__(**kwargs)`: missing `name` and `label` are `None`; a missing
        `required` is `False`. */
    constructor (cls: FieldClass, kwargs: Dict)
      ensures this.cls == cls
      ensures name == Get(kwargs, "name", Null) && fieldLabel == Get(kwargs, "label", Null)
      ensures required == Get(kwargs, "required", Bool(false))
      ensures definition == kwargs
    {
      this.cls := cls;
      name := Get(kwargs, "name", Null);
      fieldLabel := Get(kwargs, "label", Null);
      required := Get(kwargs, "required", Bool(false));
      definition := kwargs;
    }

    /** `to_dict`: the four core entries from the instance, then every other
        key of the original definition; an extra key never overwrites a core
        entry. */
    method ToDict() returns (result: Dict)
      ensures result.Keys == {"name", "label", "type", "required"} + definition.Keys
      ensures result["name"] == name && result["label"] == fieldLabel
      ensures result["type"] == Str(TypeTag(cls)) && result["required"] == required
      ensures forall k :: k in definition && k !in {"name", "label", "type", "required"} ==> result[k] == definition[k]
    {
      result := map["name" := name, "label" := fieldLabel, "type" := Str(TypeTag(cls)), "required" := required];
      var extras := map k | k in definition && k !in result :: definition[k];
      result := result + extras;
    }
  }

  /** A field built from a definition that passed `CleanDefinition` exports
      that definition again, with `required` filled in as `False` when it was
      absent. */
  method ExportCleanDefinition(cls: FieldClass, fd: Dict) returns (exported: Dict)
    requires CleanDefinition(TypeTag(cls), fd).Success?
    ensures exported == fd["required" := Get(fd, "required", Bool(false))]
  {
    var field := new SchemaField(cls, fd);
    exported := field.ToDict();
  }
}
