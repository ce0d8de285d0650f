/**
 * Checking and defaulting of request parameters: `validate_non_empty_string`,
 * `validate_element_of_list`, `validate_input_param`, and the defaulting that
 * `Bin.create` performs before it builds a bin.
 */
module Validation {
  import opened Wrappers
  import opened PyValues
  import opened OutputFormats

  /** What `validate_input_param` is given as `validation_object`: the
    * function `validate_non_empty_string`, a list of allowed values, or
    * anything else, which checks nothing. */
  datatype Validator = NonEmptyString | OneOf(allowed: seq<Value>) | NoCheck

  /** Raises unless the value is a non-empty string. */
  function ValidateNonEmptyString(name: string, value: Value): (r: Outcome<Error>)
    ensures r.Pass? <==> value.Str? && |value.s| > 0
    ensures r.Fail? ==> r.error == NotNonEmptyString(name, value)
  {
    if value.Str? && value.s != "" then Pass else Fail(NotNonEmptyString(name, value))
  }

  /** Python's `value in values`: a scan comparing with `==`. */
  function Contains(values: seq<Value>, value: Value): (b: bool)
    ensures b <==> exists i :: 0 <= i < |values| && PyEq(value, values[i])
  {
    if values == [] then false
    else if PyEq(value, values[0]) then true
    else
      var b := Contains(values[1..], value);
      assert b <==> exists i :: 1 <= i < |values| && PyEq(value, values[i]) by {
        if b {
          var i :| 0 <= i < |values[1..]| && PyEq(value, values[1..][i]);
          assert PyEq(value, values[i + 1]);
        }
        if exists i :: 1 <= i < |values| && PyEq(value, values[i]) {
          var i :| 1 <= i < |values| && PyEq(value, values[i]);
          assert PyEq(value, values[1..][i - 1]);
        }
      }
      b
  }

  /** Raises unless the value equals (in Python's sense) one of the allowed values. */
  function ValidateElementOfList(name: string, value: Value, allowed: seq<Value>): (r: Outcome<Error>)
    ensures r.Pass? <==> exists i :: 0 <= i < |allowed| && PyEq(value, allowed[i])
    ensures r.Fail? ==> r.error == NotOneOf(name, value, allowed)
  {
    if Contains(allowed, value) then Pass else Fail(NotOneOf(name, value, allowed))
  }

  /** The check `validate_input_param` applies to a parameter that is present. */
  function Validate(validator: Validator, name: string, value: Value): Outcome<Error>
  {
    match validator
    case NonEmptyString => ValidateNonEmptyString(name, value)
    case OneOf(allowed) => ValidateElementOfList(name, value, allowed)
    case NoCheck => Pass
  }

  /** The parameters `validate_input_param` leaves behind, or the error it raises. */
  function ValidatedParams(params: map<string, Value>, name: string, mustExist: bool,
                           validator: Validator, default: Value): (r: Result<map<string, Value>, Error>)
    // it raises exactly when a required parameter is missing or a present one fails its check
    ensures r.Failure? <==> (mustExist && name !in params) || (name in params && Validate(validator, name, params[name]).Fail?)
    ensures r.Failure? && name !in params ==> r.error == ParamMissing(name)
    ensures r.Failure? && name in params ==> r.error == Validate(validator, name, params[name]).error
    // a present parameter is kept as it is
    ensures r.Success? && name in params ==> r.value == params
    // an absent optional parameter gets its default, and nothing else changes
    ensures r.Success? ==> r.value.Keys == params.Keys + {name}
    ensures r.Success? && name !in params ==> r.value[name] == default
    ensures r.Success? ==> forall k :: k in params ==> r.value[k] == params[k]
  {
    if mustExist && name !in params then Failure(ParamMissing(name))
    else if name in params then
      match Validate(validator, name, params[name])
      case Pass => Success(params)
      case Fail(e) => Failure(e)
    else Success(params[name := default])
  }

  /** `validate_input_param`: checks `params[name]` or inserts the default, in place. */
  method ValidateInputParam(params: Dict<Value>, name: string, mustExist: bool,
                            validator: Validator, default: Value) returns (r: Outcome<Error>)
    modifies params
    ensures match ValidatedParams(old(params.entries), name, mustExist, validator, default)
            case Success(m) => r == Pass && params.entries == m
            case Failure(e) => r == Fail(e) && params.entries == old(params.entries)
  {
    if mustExist && name !in params.entries {
      return Fail(ParamMissing(name));
    }
    if name in params.entries {
      var check := Validate(validator, name, params.entries[name]);
      if check.Fail? {
        return check;
      }
    } else {
      params.entries := params.entries[name := default];
    }
    r := Pass;
  }

  /** One `validate_input_param` call of a sequence of them. */
  datatype ParamRule = ParamRule(name: string, mustExist: bool, validator: Validator, default: Value)

  predicate DistinctNames(rules: seq<ParamRule>)
  {
    forall i, j :: 0 <= i < j < |rules| ==> rules[i].name != rules[j].name
  }

  /** The parameters after applying the rules in order, stopping at the first
    * that raises (the defaults inserted before it stay), and the outcome. */
  function ApplyRules(params: map<string, Value>, rules: seq<ParamRule>): (r: (map<string, Value>, Outcome<Error>))
    // defaulting never changes an entry that is already there
    ensures forall k :: k in params ==> k in r.0 && r.0[k] == params[k]
    decreases |rules|
  {
    if rules == [] then (params, Pass)
    else
      var rule := rules[0];
      match ValidatedParams(params, rule.name, rule.mustExist, rule.validator, rule.default)
      case Failure(e) => (params, Fail(e))
      case Success(next) => ApplyRules(next, rules[1..])
  }

  /** Defaulting adds no parameter other than the ones the rules name, and
    * each one it adds holds its rule's default, even when a later rule raises. */
  lemma {:induction false} ApplyRulesAddsOnlyNamed(params: map<string, Value>, rules: seq<ParamRule>)
    ensures forall k :: k in ApplyRules(params, rules).0 && k !in params ==>
              exists i :: 0 <= i < |rules| && rules[i].name == k && ApplyRules(params, rules).0[k] == rules[i].default
    decreases |rules|
  {
    if rules != [] {
      var rule := rules[0];
      var v := ValidatedParams(params, rule.name, rule.mustExist, rule.validator, rule.default);
      if v.Success? {
        ApplyRulesAddsOnlyNamed(v.value, rules[1..]);
        forall k | k in ApplyRules(params, rules).0 && k !in params
          ensures exists i :: 0 <= i < |rules| && rules[i].name == k && ApplyRules(params, rules).0[k] == rules[i].default
        {
          if k == rule.name {
            assert rules[0].name == k;
          } else {
            var i :| 0 <= i < |rules[1..]| && rules[1..][i].name == k && ApplyRules(v.value, rules[1..]).0[k] == rules[1..][i].default;
            assert rules[i + 1].name == k;
          }
        }
      }
    }
  }

  /** When no rule raises, every named parameter is present afterwards: one that
    * was given passed its check, one that was missing was optional and now holds
    * its rule's default. */
  lemma {:induction false} ApplyRulesPassed(params: map<string, Value>, rules: seq<ParamRule>, i: nat)
    requires DistinctNames(rules) && i < |rules|
    requires ApplyRules(params, rules).1.Pass?
    ensures rules[i].name in ApplyRules(params, rules).0
    ensures rules[i].name in params ==>
              Validate(rules[i].validator, rules[i].name, params[rules[i].name]).Pass?
    ensures rules[i].name !in params ==>
              !rules[i].mustExist && ApplyRules(params, rules).0[rules[i].name] == rules[i].default
    decreases |rules|
  {
    var rule := rules[0];
    var v := ValidatedParams(params, rule.name, rule.mustExist, rule.validator, rule.default);
    assert v.Success?;
    if i > 0 {
      assert rules[1..][i - 1] == rules[i];
      assert rules[i].name != rule.name;
      ApplyRulesPassed(v.value, rules[1..], i - 1);
    }
  }

  /** The storage backends a bin can use: the keys of `storage_backends`. */
  datatype Backend = Gist

  const BackendNames: seq<Value> := [Str("gist")]
  const DefaultDatetimeFormat: string := "%Y-%m-%dT%H:%M:%SZ"

  /** The three `validate_input_param` calls at the start of `Bin.create`. */
  const BinCreateRules: seq<ParamRule> := [
    ParamRule("storage_backend", false, OneOf(BackendNames), Str("gist")),
    ParamRule("output_format", false, OneOf(FormatNames), Str("json")),
    ParamRule("datetime_format", false, NonEmptyString, Str(DefaultDatetimeFormat))
  ]

  /** What `Bin.create` copies onto the new bin. */
  datatype BinSettings = BinSettings(backend: Backend, format: Format, datetimeFormat: string)

  /** Parameters that `Bin.create` can build a bin from. */
  predicate SettingsReady(p: map<string, Value>)
  {
    && "storage_backend" in p && p["storage_backend"] == Str("gist")
    && "output_format" in p && p["output_format"] in FormatNames
    && "datetime_format" in p && p["datetime_format"].Str? && p["datetime_format"].s != ""
  }

  /** After the three checks of `Bin.create` pass, the parameters hold a known
    * backend, a known format and a non-empty datetime format. */
  lemma {:induction false} BinCreateRulesEstablishSettings(params: map<string, Value>)
    requires ApplyRules(params, BinCreateRules).1.Pass?
    ensures SettingsReady(ApplyRules(params, BinCreateRules).0)
  {
    assert DistinctNames(BinCreateRules);
    ApplyRulesPassed(params, BinCreateRules, 0);
    ApplyRulesPassed(params, BinCreateRules, 1);
    ApplyRulesPassed(params, BinCreateRules, 2);
    if "storage_backend" in params {
      var v := params["storage_backend"];
      assert ValidateElementOfList("storage_backend", v, BackendNames).Pass?;
      assert PyEq(v, Str("gist"));
    }
    if "output_format" in params {
      var v := params["output_format"];
      assert ValidateElementOfList("output_format", v, FormatNames).Pass?;
      var i :| 0 <= i < |FormatNames| && PyEq(v, FormatNames[i]);
      assert v == FormatNames[i];
    }
  }

  /** The defaulting of `Bin.create`: the three checks, in order, on the
    * request parameters, then the bin's settings read from the result. */
  method CreateBinSettings(params: Dict<Value>) returns (r: Result<BinSettings, Error>)
    modifies params
    ensures params.entries == ApplyRules(old(params.entries), BinCreateRules).0
    ensures r.Failure? <==> ApplyRules(old(params.entries), BinCreateRules).1.Fail?
    ensures r.Failure? ==> r.error == ApplyRules(old(params.entries), BinCreateRules).1.error
    ensures r.Success? ==> SettingsReady(params.entries)
    ensures r.Success? ==> r.value == BinSettings(Gist, FormatOf(params.entries["output_format"]),
                                                   params.entries["datetime_format"].s)
  {
    ghost var p0 := params.entries;
    var rules := BinCreateRules;
    assert rules[1..][1..] == [rules[2]] && rules[1..][1..][1..] == [];
    var o := ValidateInputParam(params, rules[0].name, rules[0].mustExist, rules[0].validator, rules[0].default);
    if o.Fail? {
      return Failure(o.error);
    }
    assert ApplyRules(p0, rules) == ApplyRules(params.entries, rules[1..]);
    ghost var p1 := params.entries;
    o := ValidateInputParam(params, rules[1].name, rules[1].mustExist, rules[1].validator, rules[1].default);
    if o.Fail? {
      return Failure(o.error);
    }
    assert ApplyRules(p1, rules[1..]) == ApplyRules(params.entries, rules[1..][1..]);
    ghost var p2 := params.entries;
    o := ValidateInputParam(params, rules[2].name, rules[2].mustExist, rules[2].validator, rules[2].default);
    if o.Fail? {
      return Failure(o.error);
    }
    assert ApplyRules(p2, rules[1..][1..]) == ApplyRules(params.entries, []);
    BinCreateRulesEstablishSettings(p0);
    r := Success(BinSettings(Gist, FormatOf(params.entries["output_format"]), params.entries["datetime_format"].s));
  }

  /** With no parameters given, a bin stores JSON in a gist and renders dates
    * as ISO 8601 UTC timestamps. */
  lemma BinCreateDefaults()
    ensures ApplyRules(map[], BinCreateRules) ==
      (map["storage_backend" := Str("gist"), "output_format" := Str("json"),
           "datetime_format" := Str(DefaultDatetimeFormat)], Pass)
  {
    var rules := BinCreateRules;
    assert rules[1..][1..] == [rules[2]] && rules[1..][1..][1..] == [];
    var p1 := map["storage_backend" := Str("gist")];
    var p2 := p1["output_format" := Str("json")];
    var p3 := p2["datetime_format" := Str(DefaultDatetimeFormat)];
    assert ApplyRules(map[], rules) == ApplyRules(p1, rules[1..]);
    assert ApplyRules(p1, rules[1..]) == ApplyRules(p2, rules[1..][1..]);
    assert ApplyRules(p2, rules[1..][1..]) == ApplyRules(p3, []);
  }
}
