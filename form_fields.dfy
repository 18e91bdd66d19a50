/** The form-field template helpers: the choice of the template that renders
    a field, and the `add_attrs` filter that parses `key:value` pairs into
    HTML attributes, always appends the base input classes and merges the
    result over the widget's own attributes. */
module FormFields {
  import opened Common
  import opened PyString
  import opened PyValue

  /** `BASE_INPUT_CLASS`, appended to every `class` attribute. */
  const BaseInputClass := " w-full focus-within:outline-hidden"

  const CheckboxTemplate := "form_parts/field_checkbox.html"
  const TextareaTemplate := "form_parts/field_textarea.html"
  const TextTemplate := "form_parts/field_text.html"

  /** `render_field`: the template for a field whose widget class is named
      `widgetClass`, chosen by a substring test on the lower-cased name;
      checkboxes are tested first. */
  function RenderField(widgetClass: string): (templateName: string)
    ensures IsSubstring("checkbox", Lower(widgetClass)) ==> templateName == CheckboxTemplate
    ensures !IsSubstring("checkbox", Lower(widgetClass)) && IsSubstring("textarea", Lower(widgetClass)) ==>
              templateName == TextareaTemplate
    ensures templateName in {CheckboxTemplate, TextareaTemplate, TextTemplate}
    ensures templateName == TextTemplate <==>
              !IsSubstring("checkbox", Lower(widgetClass)) && !IsSubstring("textarea", Lower(widgetClass))
  {
    var widget := Lower(widgetClass);
    if IsSubstring("checkbox", widget) then CheckboxTemplate
    else if IsSubstring("textarea", widget) then TextareaTemplate
    else TextTemplate
  }

  /** A widget name too short to hold either word gets the text template. */
  lemma ShortWidgetsAreText(widgetClass: string)
    requires |widgetClass| < 8
    ensures RenderField(widgetClass) == TextTemplate
  {
  }

  // ---------------------------------------------------------------------------
  // add_attrs
  // ---------------------------------------------------------------------------

  /** The attributes one comma-separated piece contributes: none without a
      colon, otherwise the stripped text before the first colon mapped to the
      stripped text after it. */
  function PairOf(piece: string): Option<(string, string)>
  {
    if ':' in piece then
      var kv := SplitOnce(piece, ':');
      Some((Strip(kv.0), Strip(kv.1)))
    else None
  }

  /** The attributes parsed from the pieces, a later piece replacing an
      earlier one with the same key. */
  function ParsePieces(pieces: seq<string>): map<string, string>
  {
    if pieces == [] then map[]
    else Record(ParsePieces(pieces[..|pieces| - 1]), PairOf(pieces[|pieces| - 1]))
  }

  /** `attrs[key] = val` for a piece that has a pair. */
  function Record(attrs: map<string, string>, pair: Option<(string, string)>): map<string, string>
  {
    match pair
    case None => attrs
    case Some(kv) => attrs[kv.0 := kv.1]
  }

  /** The attributes parsed from the filter argument; an empty argument gives
      none. */
  function ParseAttrs(argString: string): map<string, string>
  {
    if argString == [] then map[] else ParsePieces(Split(argString, ','))
  }

  /** The filter's own attributes: the parsed ones, the placeholder
      defaulting to a single space and the base classes appended to `class`;
      `KeyError` when the argument gives no `class`. */
  function OwnAttrs(argString: string): (r: Result<map<string, string>, Error>)
    ensures r.Success? <==> "class" in ParseAttrs(argString)
    ensures r.Failure? ==> r.error == KeyError("class")
    ensures r.Success? ==>
              && r.value.Keys == ParseAttrs(argString).Keys + {"placeholder"}
              && r.value["class"] == ParseAttrs(argString)["class"] + BaseInputClass
              && r.value["placeholder"] == (if "placeholder" in ParseAttrs(argString) then ParseAttrs(argString)["placeholder"] else " ")
              && (forall k :: k in ParseAttrs(argString) && k != "class" ==> r.value[k] == ParseAttrs(argString)[k])
  {
    var parsed := ParseAttrs(argString);
    var attrs := if "placeholder" in parsed then parsed else parsed["placeholder" := " "];
    if "class" !in attrs then Failure(KeyError("class"))
    else Success(attrs["class" := attrs["class"] + BaseInputClass])
  }

  /** The attributes the field is rendered with: the widget's attributes,
      each overridden by the filter's own. */
  function FinalAttrs(argString: string, widgetAttrs: map<string, string>): (r: Result<map<string, string>, Error>)
    ensures r.Success? <==> OwnAttrs(argString).Success?
    ensures r.Failure? ==> r == Failure(KeyError("class"))
    ensures r.Success? ==>
              && r.value.Keys == widgetAttrs.Keys + OwnAttrs(argString).value.Keys
              && (forall k :: k in OwnAttrs(argString).value ==> r.value[k] == OwnAttrs(argString).value[k])
              && (forall k :: k in widgetAttrs && k !in OwnAttrs(argString).value ==> r.value[k] == widgetAttrs[k])
  {
    match OwnAttrs(argString)
    case Failure(e) => Failure(e)
    case Success(attrs) => Success(widgetAttrs + attrs)
  }

  /** `add_attrs(field, arg_string)`, returning the attributes the field is
      rendered with. */
  method AddAttrs(argString: string, widgetAttrs: map<string, string>) returns (r: Result<map<string, string>, Error>)
    ensures r == FinalAttrs(argString, widgetAttrs)
  {
    var attrs: map<string, string> := map[];
    if argString != [] {
      var pieces := Split(argString, ',');
      var i := 0;
      while i < |pieces|
        invariant 0 <= i <= |pieces|
        invariant attrs == ParsePieces(pieces[..i])
      {
        var piece := pieces[i];
        if ':' in piece {
          var kv := SplitOnce(piece, ':');
          attrs := attrs[Strip(kv.0) := Strip(kv.1)];
        }
        assert pieces[..i + 1][..i] == pieces[..i];
        i := i + 1;
      }
      assert pieces[..|pieces|] == pieces;
    }
    if "placeholder" !in attrs {
      attrs := attrs["placeholder" := " "];
    }
    if "class" !in attrs {
      return Failure(KeyError("class"));
    }
    attrs := attrs["class" := attrs["class"] + BaseInputClass];
    var finalAttrs := widgetAttrs;
    finalAttrs := finalAttrs + attrs;
    r := Success(finalAttrs);
  }

  /** An empty argument, the filter's default, always raises `KeyError`. */
  lemma EmptyArgumentRaises(widgetAttrs: map<string, string>)
    ensures FinalAttrs("", widgetAttrs) == Failure(KeyError("class"))
  {
  }

  /** A piece is split at its first colon only, so a value keeps any later
      colons. */
  lemma {:induction false} SplitAtFirstColon(key: string, value: string)
    requires ':' !in key
    ensures SplitOnce(key + [':'] + value, ':') == (key, value)
  {
    var s := key + [':'] + value;
    if key == [] {
      assert s[0] == ':' && s[1..] == value;
    } else {
      assert s[0] == key[0] && s[0] != ':';
      assert s[1..] == key[1..] + [':'] + value;
      SplitAtFirstColon(key[1..], value);
      assert [key[0]] + key[1..] == key;
    }
  }

  /** Hence a piece `key:value` contributes the stripped key and the stripped
      value, whatever the value contains. */
  lemma PairOfKeyValue(key: string, value: string)
    requires ':' !in key
    ensures PairOf(key + [':'] + value) == Some((Strip(key), Strip(value)))
  {
    SplitAtFirstColon(key, value);
    assert (key + [':'] + value)[|key|] == ':';
  }

  /** A parsed key never contains a colon. */
  lemma {:induction false} ParsedKeysHaveNoColon(pieces: seq<string>)
    ensures forall k :: k in ParsePieces(pieces) ==> ':' !in k
  {
    if pieces != [] {
      ParsedKeysHaveNoColon(pieces[..|pieces| - 1]);
      var piece := pieces[|pieces| - 1];
      if ':' in piece {
        var kv := SplitOnce(piece, ':');
        StripKeepsOut(kv.0, ':');
        assert PairOf(piece) == Some((Strip(kv.0), Strip(kv.1)));
      } else {
        assert PairOf(piece) == None;
      }
    }
  }

  /** The last piece that sets a key decides its value. */
  lemma {:induction false} LastPieceWins(pieces: seq<string>, i: nat, key: string, value: string)
    requires i < |pieces| && PairOf(pieces[i]) == Some((key, value))
    requires forall j :: i < j < |pieces| ==> PairOf(pieces[j]).None? || PairOf(pieces[j]).value.0 != key
    ensures key in ParsePieces(pieces) && ParsePieces(pieces)[key] == value
  {
    var init := pieces[..|pieces| - 1];
    var last := PairOf(pieces[|pieces| - 1]);
    assert ParsePieces(pieces) == Record(ParsePieces(init), last);
    if i < |pieces| - 1 {
      assert last.None? || last.value.0 != key;
      assert forall j :: i < j < |init| ==> init[j] == pieces[j];
      LastPieceWins(init, i, key, value);
    }
  }

  /** Every parsed key comes from a piece that sets it, and every key a piece
      sets is parsed. */
  lemma {:induction false} ParsedKeysFromPieces(pieces: seq<string>)
    ensures forall k :: k in ParsePieces(pieces) <==>
              exists j :: 0 <= j < |pieces| && PairOf(pieces[j]).Some? && PairOf(pieces[j]).value.0 == k
  {
    if pieces != [] {
      var init := pieces[..|pieces| - 1];
      ParsedKeysFromPieces(init);
      assert forall j :: 0 <= j < |init| ==> init[j] == pieces[j];
    }
  }

  /** Pieces without a colon contribute nothing. */
  lemma {:induction false} PiecesWithoutColonIgnored(pieces: seq<string>)
    requires forall j :: 0 <= j < |pieces| ==> ':' !in pieces[j]
    ensures ParsePieces(pieces) == map[]
  {
    if pieces != [] {
      PiecesWithoutColonIgnored(pieces[..|pieces| - 1]);
    }
  }
}
