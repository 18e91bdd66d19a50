/** The field registry: each field class under its class tag, built by a dict
    comprehension over the classes in a fixed order, so a later class with
    the same tag replaces an earlier one. */
module Registry {
  import opened Common
  import opened PyValue
  import opened SchemaBase

  /** The classes in the order the registry lists them. */
  const Classes: seq<FieldClass> :=
    [TextField, NumberField, DateField, LatLongField, DropdownField, BoolField, ReferenceField]

  /** `{cls.type: cls for cls in classes}`. */
  function RegistryOf(classes: seq<FieldClass>): map<string, FieldClass>
  {
    if classes == [] then map[]
    else
      var last := classes[|classes| - 1];
      RegistryOf(classes[..|classes| - 1])[TypeTag(last) := last]
  }

  /** The registry's keys are exactly the tags of the listed classes. */
  lemma {:induction false} RegistryKeys(classes: seq<FieldClass>)
    ensures RegistryOf(classes).Keys == set k | 0 <= k < |classes| :: TypeTag(classes[k])
  {
    if classes != [] {
      var init := classes[..|classes| - 1];
      RegistryKeys(init);
      assert forall k :: 0 <= k < |init| ==> init[k] == classes[k];
      assert (set k | 0 <= k < |classes| :: TypeTag(classes[k]))
          == (set k | 0 <= k < |init| :: TypeTag(init[k])) + {TypeTag(classes[|classes| - 1])};
    }
  }

  /** The last class carrying a tag is the one registered under it. */
  lemma {:induction false} LastClassWins(classes: seq<FieldClass>, k: nat)
    requires k < |classes|
    requires forall j :: k < j < |classes| ==> TypeTag(classes[j]) != TypeTag(classes[k])
    ensures TypeTag(classes[k]) in RegistryOf(classes)
    ensures RegistryOf(classes)[TypeTag(classes[k])] == classes[k]
  {
    if k < |classes| - 1 {
      var init := classes[..|classes| - 1];
      assert forall j :: k < j < |init| ==> init[j] == classes[j];
      LastClassWins(init, k);
    }
  }

  lemma RegistrySnoc(classes: seq<FieldClass>, c: FieldClass)
    ensures RegistryOf(classes + [c]) == RegistryOf(classes)[TypeTag(c) := c]
  {
    assert (classes + [c])[..|classes|] == classes;
  }

  /** `FIELD_REGISTRY`. */
  const FieldRegistry := RegistryOf(Classes)

  /** The registry has six entries: the number class is registered under
      `"text"`, replacing the text class, and nothing is registered under
      `"number"`. */
  lemma RegistryContents()
    ensures FieldRegistry == map["text" := NumberField, "date" := DateField, "latlong" := LatLongField,
                                 "dropdown" := DropdownField, "bool" := BoolField, "reference" := ReferenceField]
    ensures |FieldRegistry| == 6
    ensures "number" !in FieldRegistry && TextField !in FieldRegistry.Values
  {
    var c1 := [TextField];
    assert [] + [TextField] == c1;
    RegistrySnoc([], TextField);
    var r: map<string, FieldClass> := map["text" := NumberField];
    assert RegistryOf(c1 + [NumberField]) == r by {
      RegistrySnoc(c1, NumberField);
    }
    var c := c1 + [NumberField];
    RegistrySnoc(c, DateField);
    r, c := r["date" := DateField], c + [DateField];
    RegistrySnoc(c, LatLongField);
    r, c := r["latlong" := LatLongField], c + [LatLongField];
    RegistrySnoc(c, DropdownField);
    r, c := r["dropdown" := DropdownField], c + [DropdownField];
    RegistrySnoc(c, BoolField);
    r, c := r["bool" := BoolField], c + [BoolField];
    RegistrySnoc(c, ReferenceField);
    r, c := r["reference" := ReferenceField], c + [ReferenceField];
    assert c == Classes;
    assert FieldRegistry == r;
  }

  /** The registry is keyed by tag: every registered class carries the tag it
      is registered under. */
  lemma {:induction false} RegisteredUnderOwnTag(classes: seq<FieldClass>, t: string)
    requires t in RegistryOf(classes)
    ensures TypeTag(RegistryOf(classes)[t]) == t
  {
    var init := classes[..|classes| - 1];
    if t != TypeTag(classes[|classes| - 1]) {
      RegisteredUnderOwnTag(init, t);
    }
  }

  /** `get_field_class`: a `TypeError` for an unhashable tag, a `ValueError`
      for a tag that is not registered. */
  function GetFieldClass(ftype: Value): (r: Result<FieldClass, Error>)
    ensures r.Success? <==> ftype.Str? && ftype.s in FieldRegistry
    ensures r.Success? ==> TypeTag(r.value) == ftype.s && r.value == FieldRegistry[ftype.s]
    ensures (ftype.List? || ftype.Dict?) ==> r == Failure(TypeError)
    ensures !(ftype.List? || ftype.Dict?) && !(ftype.Str? && ftype.s in FieldRegistry) ==>
              r == Failure(ValueError([Lit("Unknown field type: "), Shown(ftype)]))
  {
    if ftype.List? || ftype.Dict? then Failure(TypeError)
    else if !(ftype.Str? && ftype.s in FieldRegistry) then
      Failure(ValueError([Lit("Unknown field type: "), Shown(ftype)]))
    else
      RegisteredUnderOwnTag(Classes, ftype.s);
      Success(FieldRegistry[ftype.s])
  }

  /** A definition tagged `"number"` names no class; one tagged `"text"`
      resolves to the number class. */
  lemma LookupExamples()
    ensures GetFieldClass(Str("number")) == Failure(ValueError([Lit("Unknown field type: "), Shown(Str("number"))]))
    ensures GetFieldClass(Str("text")) == Success(NumberField)
    ensures GetFieldClass(Str("date")) == Success(DateField)
    ensures GetFieldClass(Null).Failure?
  {
    RegistryContents();
  }
}
