/** The Python values the schema-field rules see: a field definition and a
    field value are both parsed JSON, so a value is `None`, a bool, an int, a
    float, a string, a list or a dict with string keys.  This module gives the
    parts of Python's semantics those rules depend on: `==` across the numeric
    types, truthiness, `in` and the exceptions a rule can raise. */
module PyValue {
  import opened Common
  import opened PyString

  datatype Value =
    | Null
    | Bool(b: bool)
    | Int(i: int)
    | Float(r: real)
    | Str(s: string)
    | List(items: seq<Value>)
    | Dict(entries: map<string, Value>)

  /** A dict as the rules receive it: a field definition or a structured value. */
  type Dict = map<string, Value>

  /** One piece of an f-string message: literal text, or a value rendered with
      `str()`. */
  datatype Part = Lit(text: string) | Shown(value: Value)

  type Message = seq<Part>

  /** The exceptions the modelled rules raise. */
  datatype Error =
    | ValidationError(message: Message)
    | KeyError(key: string)
    | TypeError
    | AttributeError
    | ValueError(message: Message)

  // ---------------------------------------------------------------------------
  // Numbers
  // ---------------------------------------------------------------------------

  /** `isinstance(v, (int, float))`: `bool` is a subclass of `int`. */
  predicate IsNumber(v: Value)
  {
    v.Bool? || v.Int? || v.Float?
  }

  /** The numeric value of a number; `True` is 1 and `False` is 0. */
  function NumberValue(v: Value): real
    requires IsNumber(v)
  {
    match v
    case Bool(b) => if b then 1.0 else 0.0
    case Int(i) => i as real
    case Float(r) => r
  }

  // ---------------------------------------------------------------------------
  // Equality
  // ---------------------------------------------------------------------------

  /** Python's `==` on these values: numbers compare by numeric value whatever
      their type, lists elementwise, dicts by keys and values, and values of
      different kinds are unequal. */
  predicate PyEq(x: Value, y: Value)
    decreases x
  {
    if IsNumber(x) && IsNumber(y) then NumberValue(x) == NumberValue(y)
    else match (x, y)
      case (List(a), List(b)) => |a| == |b| && forall k :: 0 <= k < |a| ==> PyEq(a[k], b[k])
      case (Dict(m), Dict(n)) => m.Keys == n.Keys && forall k :: k in m ==> PyEq(m[k], n[k])
      case _ => x == y
  }

  lemma {:induction false} PyEqReflexive(x: Value)
    ensures PyEq(x, x)
    decreases x
  {
    match x
    case List(a) =>
      forall k | 0 <= k < |a|
        ensures PyEq(a[k], a[k])
      {
        PyEqReflexive(a[k]);
      }
    case Dict(m) =>
      forall k | k in m
        ensures PyEq(m[k], m[k])
      {
        PyEqReflexive(m[k]);
      }
    case _ =>
  }

  lemma {:induction false} PyEqSymmetric(x: Value, y: Value)
    requires PyEq(x, y)
    ensures PyEq(y, x)
    decreases x
  {
    if !(IsNumber(x) && IsNumber(y)) {
      match (x, y)
      case (List(a), List(b)) =>
        forall k | 0 <= k < |b|
          ensures PyEq(b[k], a[k])
        {
          PyEqSymmetric(a[k], b[k]);
        }
      case (Dict(m), Dict(n)) =>
        forall k | k in n
          ensures PyEq(n[k], m[k])
        {
          PyEqSymmetric(m[k], n[k]);
        }
      case _ =>
    }
  }

  /** Numbers of different types can be equal: `1 == 1.0 == True`. */
  lemma NumbersAcrossTypes()
    ensures PyEq(Int(1), Float(1.0)) && PyEq(Bool(true), Int(1)) && PyEq(Bool(false), Float(0.0))
    ensures !PyEq(Int(1), Str("1")) && !PyEq(Null, Bool(false))
  {
  }

  // ---------------------------------------------------------------------------
  // Truthiness, `in`, lookups
  // ---------------------------------------------------------------------------

  /** `bool(v)`: `None`, `False`, zero, and empty strings, lists and dicts are
      false. */
  predicate Truthy(v: Value)
  {
    match v
    case Null => false
    case Bool(b) => b
    case Int(i) => i != 0
    case Float(r) => r != 0.0
    case Str(s) => s != []
    case List(a) => a != []
    case Dict(m) => m != map[]
  }

  /** `x in container`: list membership by `==`, substring test on strings (a
      non-string left operand is a `TypeError`), key membership on dicts (an
      unhashable list or dict is a `TypeError`), and a `TypeError` for values
      that are not iterable. */
  function Contains(container: Value, x: Value): (r: Result<bool, Error>)
    ensures container.List? ==> r == Success(exists k :: 0 <= k < |container.items| && PyEq(x, container.items[k]))
    ensures container.Str? ==> (r.Success? <==> x.Str?)
    ensures container.Dict? ==> (r.Success? <==> !(x.List? || x.Dict?))
    ensures !(container.List? || container.Str? || container.Dict?) ==> r == Failure(TypeError)
  {
    match container
    case List(items) => Success(exists k :: 0 <= k < |items| && PyEq(x, items[k]))
    case Str(s) => if x.Str? then Success(IsSubstring(x.s, s)) else Failure(TypeError)
    case Dict(m) =>
      if x.List? || x.Dict? then Failure(TypeError) else Success(x.Str? && x.s in m)
    case _ => Failure(TypeError)
  }

  /** `d.get(key, default)`. */
  function Get(d: Dict, key: string, default: Value): (r: Value)
    ensures key in d ==> r == d[key]
    ensures key !in d ==> r == default
  {
    if key in d then d[key] else default
  }

  /** `d[key]`, raising `KeyError` when the key is missing. */
  function Lookup(d: Dict, key: string): (r: Result<Value, Error>)
    ensures r.Success? <==> key in d
    ensures r.Success? ==> r.value == d[key]
    ensures r.Failure? ==> r.error == KeyError(key)
  {
    if key in d then Success(d[key]) else Failure(KeyError(key))
  }
}
