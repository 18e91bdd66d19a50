/** The bool field type: a value is `None`, the empty string, a bool, or one
    of six words in any letter case, as form input sends them. */
module BoolFieldType {
  import opened Common
  import opened PyString
  import opened PyValue
  import opened SchemaBase

  /** The accepted spellings, compared after lower-casing. */
  const Words: set<string> := {"true", "false", "1", "0", "yes", "no"}

  /** `BoolField.validate`. */
  function Validate(value: Value, fd: Dict): (r: Result<(), Error>)
    ensures r.Success? <==> value.Null? || value == Str("") || value.Bool? || (value.Str? && Lower(value.s) in Words)
    ensures r.Failure? ==> r == Reject(fd, [Lit(" must be a boolean.")])
  {
    if value.Null? || value == Str("") then Success(())
    else if value.Bool? then Success(())
    else if value.Str? && Lower(value.s) in Words then Success(())
    else Reject(fd, [Lit(" must be a boolean.")])
  }

  /** Letter case does not matter. */
  lemma UpperCaseAccepted(fd: Dict)
    ensures Validate(Str("YES"), fd).Success?
  {
    var t := Lower("YES");
    assert t[0] == 'y' && t[1] == 'e' && t[2] == 's';
    assert t == "yes";
  }

  /** Other words, padded words and other types are refused. */
  lemma OthersRefused(fd: Dict)
    ensures Validate(Str("maybe"), fd).Failure? && Validate(Int(1), fd).Failure?
  {
    assert |Lower("maybe")| == 5;
  }

  /** A string passes exactly when its lower-case form is one of the words, so
      two spellings that differ only in case are both accepted or both
      refused. */
  lemma CaseInsensitive(s: string, fd: Dict)
    ensures Validate(Str(s), fd).Success? <==> Validate(Str(Lower(s)), fd).Success?
  {
    LowerIdempotent(s);
  }
}
