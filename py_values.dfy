/**
 * The Python values the core works on: request parameters, Python's `==` on
 * them, the exceptions the core can raise, and the mutable `dict` that the
 * helpers update in place.
 */
module PyValues {

  /** A request parameter as `get_request_params` delivers it (form fields are
    * strings; a JSON body may also carry booleans, integers and null). A JSON
    * body's floats, lists and objects are left out: the parameters checked here
    * reject every one of them, as they do a boolean, an integer or null. */
  datatype Value = Str(s: string) | Bool(b: bool) | Int(i: int) | Null

  /** A point in time; `datetime` objects are modelled by an abstract instant. */
  type Instant = int

  /** `strftime(instant, format)`, supplied by the caller. */
  type Strftime = (Instant, string) -> string

  /** The exceptions raised by the core, by cause. */
  datatype Error =
    | ParamMissing(name: string)                             // validate_input_param, must_exist
    | NotNonEmptyString(name: string, value: Value)          // validate_non_empty_string
    | NotOneOf(name: string, value: Value, allowed: seq<Value>) // validate_element_of_list
    | KeyError(key: string)                                  // dict lookup of a missing key
    | NotInList(item: string)                                // list.remove of a missing item
    | NoStrftime(key: string)                                // value has no strftime
    | NotAJsonArray                                          // json.loads failed or gave no list
    | ZeroDivision                                           // `% 0`
    | UnicodeEncode                                          // str() of non-ASCII unicode

  /** Python 2 numeric view of booleans: `True == 1` and `False == 0`. */
  function NumberOf(v: Value): int
    requires v.Bool? || v.Int?
  {
    if v.Bool? then (if v.b then 1 else 0) else v.i
  }

  /** Python's `==` on parameter values: strings and None compare only with
    * their own kind, booleans and integers compare as numbers. */
  predicate PyEq(a: Value, b: Value)
  {
    if a.Str? || b.Str? || a.Null? || b.Null? then a == b
    else NumberOf(a) == NumberOf(b)
  }

  /** A Python `dict` with string keys, updated in place by the helpers. */
  class Dict<V> {
    var entries: map<string, V>

    constructor (entries: map<string, V>)
      ensures this.entries == entries
    {
      this.entries := entries;
    }
  }
}
