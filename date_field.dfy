/** The date field type: a value is `None`, a plain string (text the date
    widget could not parse), or a structured date `{"iso", "precision",
    "original"}` whose `iso` is an ISO date, or `0000-MM-DD` for a day without a
    year.  Parsing with `datetime` is not modelled: `isoDate` stands for
    `datetime.fromisoformat` succeeding and `monthDay` for
    `datetime.strptime(rest, "%m-%d")` succeeding. */
module DateFieldType {
  import opened Common
  import opened PyValue
  import opened SchemaBase

  const Precisions: set<string> := {"day", "month", "year", "decade", "quarter_century", "century"}

  /** The precisions as `sorted()` lists them in the error message. */
  const SortedPrecisions := "['century', 'day', 'decade', 'month', 'quarter_century', 'year']"

  /** The prefix that marks a date without a year. */
  const NoYear := "0000-"

  predicate HasNoYear(iso: string)
  {
    |iso| >= 5 && iso[..5] == NoYear
  }

  /** The conditions a structured date must meet, in terms of its parts. */
  predicate ValidStructured(m: Dict, isoDate: string -> bool, monthDay: string -> bool)
  {
    var iso := Get(m, "iso", Null);
    var precision := Get(m, "precision", Null);
    && Truthy(iso) && iso.Str?
    && precision.Str? && precision.s in Precisions
    && (if HasNoYear(iso.s) then monthDay(iso.s[5..]) else isoDate(iso.s))
  }

  const MissingIso: Message := [Lit(": structured date must include 'iso'.")]

  /** The message for a precision outside the six. */
  function InvalidPrecision(precision: Value): Message
  {
    [Lit(": invalid precision '"), Shown(precision), Lit("'. Must be one of " + SortedPrecisions + ".")]
  }

  /** The message for a day without a year whose month and day do not parse. */
  function InvalidMonthDay(iso: Value): Message
  {
    [Lit(": 'iso' is not a valid date, got '"), Shown(iso), Lit("'.")]
  }

  /** The message for an `iso` that is not an ISO date. */
  function InvalidIsoDate(iso: Value): Message
  {
    [Lit(": 'iso' must be a valid ISO date string, got '"), Shown(iso), Lit("'.")]
  }

  /** The checks on a structured date, in the order: `iso` present, precision
      known, then the date itself.  The set membership test raises `TypeError`
      for an unhashable precision, and `startswith` raises `AttributeError` on
      an `iso` that is not a string. */
  function ValidateStructured(m: Dict, fd: Dict, isoDate: string -> bool, monthDay: string -> bool): (r: Result<(), Error>)
    ensures r.Success? <==> ValidStructured(m, isoDate, monthDay)
    ensures !Truthy(Get(m, "iso", Null)) ==> r == Reject(fd, MissingIso)
    ensures Truthy(Get(m, "iso", Null)) && (Get(m, "precision", Null).List? || Get(m, "precision", Null).Dict?) ==>
              r == Failure(TypeError)
    ensures Truthy(Get(m, "iso", Null)) && !(Get(m, "precision", Null).List? || Get(m, "precision", Null).Dict?)
            && !(Get(m, "precision", Null).Str? && Get(m, "precision", Null).s in Precisions) ==>
              r == Reject(fd, InvalidPrecision(Get(m, "precision", Null)))
    ensures Truthy(Get(m, "iso", Null)) && Get(m, "precision", Null).Str? && Get(m, "precision", Null).s in Precisions ==>
              && (!Get(m, "iso", Null).Str? ==> r == Failure(AttributeError))
              && (Get(m, "iso", Null).Str? && HasNoYear(Get(m, "iso", Null).s) && !monthDay(Get(m, "iso", Null).s[5..]) ==>
                    r == Reject(fd, InvalidMonthDay(Get(m, "iso", Null))))
              && (Get(m, "iso", Null).Str? && !HasNoYear(Get(m, "iso", Null).s) && !isoDate(Get(m, "iso", Null).s) ==>
                    r == Reject(fd, InvalidIsoDate(Get(m, "iso", Null))))
  {
    var iso := Get(m, "iso", Null);
    var precision := Get(m, "precision", Null);
    if !Truthy(iso) then Reject(fd, MissingIso)
    else if precision.List? || precision.Dict? then Failure(TypeError)
    else if !(precision.Str? && precision.s in Precisions) then Reject(fd, InvalidPrecision(precision))
    else if !iso.Str? then Failure(AttributeError)
    else if HasNoYear(iso.s) then
      if monthDay(iso.s[5..]) then Success(()) else Reject(fd, InvalidMonthDay(iso))
    else if isoDate(iso.s) then Success(())
    else Reject(fd, InvalidIsoDate(iso))
  }

  /** `DateField.validate`. */
  function Validate(value: Value, fd: Dict, isoDate: string -> bool, monthDay: string -> bool): (r: Result<(), Error>)
    ensures r.Success? <==> value.Null? || value.Str? || (value.Dict? && ValidStructured(value.entries, isoDate, monthDay))
    ensures !(value.Null? || value.Str? || value.Dict?) ==>
              r == Reject(fd, [Lit(": date value must be a string or structured date object.")])
  {
    match value
    case Null => Success(())
    case Str(_) => Success(())
    case Dict(m) => ValidateStructured(m, fd, isoDate, monthDay)
    case _ => Reject(fd, [Lit(": date value must be a string or structured date object.")])
  }

  /** A day without a year is checked as month and day only, never as a full
      ISO date; any other `iso` is checked as a full ISO date only. */
  lemma NoYearUsesMonthDay(m: Dict, fd: Dict, isoDate: string -> bool, monthDay: string -> bool)
    requires "iso" in m && m["iso"] == Str("0000-04-30")
    requires "precision" in m && m["precision"] == Str("day")
    ensures Validate(Dict(m), fd, isoDate, monthDay).Success? <==> monthDay("04-30")
  {
    assert HasNoYear("0000-04-30");
    assert "0000-04-30"[5..] == "04-30";
  }

  /** A structured date without `iso` is reported as such, whatever its
      precision. */
  lemma MissingIsoReportedFirst(m: Dict, fd: Dict, isoDate: string -> bool, monthDay: string -> bool)
    requires "iso" !in m && "name" in fd
    ensures Validate(Dict(m), fd, isoDate, monthDay) ==
              Failure(ValidationError([Shown(fd["name"]), Lit(": structured date must include 'iso'.")]))
  {
    var rest := [Lit(": structured date must include 'iso'.")];
    assert [Shown(fd["name"])] + rest == [Shown(fd["name"]), Lit(": structured date must include 'iso'.")];
  }

  /** An unknown precision is reported before the date is looked at. */
  lemma PrecisionBeforeDate(m: Dict, fd: Dict, isoDate: string -> bool, monthDay: string -> bool)
    requires "iso" in m && Truthy(m["iso"]) && "name" in fd
    requires "precision" in m && m["precision"] == Str("week")
    ensures Validate(Dict(m), fd, isoDate, monthDay) ==
              Failure(ValidationError([Shown(fd["name"]), Lit(": invalid precision '"), Shown(Str("week")),
                                       Lit("'. Must be one of " + SortedPrecisions + ".")]))
  {
    var rest := [Lit(": invalid precision '"), Shown(Str("week")), Lit("'. Must be one of " + SortedPrecisions + ".")];
    assert "week" !in Precisions;
    assert [Shown(fd["name"])] + rest == [Shown(fd["name"]), rest[0], rest[1], rest[2]];
  }
}
