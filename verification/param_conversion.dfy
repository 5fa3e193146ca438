/**
 * The parameter codec: `convertInput` maps a parameter spec and the caller's
 * arguments (one named record, or positional values) to the ordered wire list,
 * substituting defaults and validating every field before converting any;
 * `convertOutput` maps positional wire values back to a named record.
 */
module ParamConversion {
  import opened Wrappers
  import opened JsValues
  import opened ParamTypes
  import opened Errors

  /** The two ways a caller supplies values. */
  datatype Args = Named(record: map<string, Value>) | Positional(values: seq<Value>)

  /** `convertInput(spec, ...args)`: one object argument is read as a named record, anything else positionally. */
  function ArgsOf(args: seq<Value>): (a: Args)
    ensures a.Named? <==> |args| == 1 && args[0].Obj?
  {
    if |args| == 1 && args[0].Obj? then Named(args[0].props) else Positional(args)
  }

  /** What the caller supplied for field `p` at position `i`: absent reads as `undefined`. */
  function Supplied(p: Param, i: nat, args: Args): Value {
    match args
    case Named(record) => Get(record, p.name)
    case Positional(values) => if i < |values| then values[i] else Undefined
  }

  /** The value handed to the field's `validate`: the supplied value, or the default when none was supplied. */
  function RawValue(p: Param, i: nat, args: Args): Value {
    var v := Supplied(p, i, args);
    if v == Undefined && p.defaultValue.Some? then p.defaultValue.value else v
  }

  function RawValues(spec: seq<Param>, args: Args): (raws: seq<Value>)
    ensures |raws| == |spec|
    ensures forall i :: 0 <= i < |spec| ==> raws[i] == RawValue(spec[i], i, args)
  {
    seq(|spec|, i requires 0 <= i < |spec| => RawValue(spec[i], i, args))
  }

  /** The field's type accepts the value. */
  predicate Accepts(p: Param, v: Value) {
    Validate(p.typ, v).Valid?
  }

  /** Validation in spec order, stopping at the first field whose type rejects its value. */
  function FirstFailure(spec: seq<Param>, raws: seq<Value>): (r: Option<Error>)
    requires |raws| == |spec|
    ensures r.None? <==> forall i :: 0 <= i < |spec| ==> Accepts(spec[i], raws[i])
    ensures r.Some? ==>
      exists i :: 0 <= i < |spec| && !Accepts(spec[i], raws[i]) &&
        r.value == Validation(spec[i].name, Validate(spec[i].typ, raws[i]).reason) &&
        forall j :: 0 <= j < i ==> Accepts(spec[j], raws[j])
  {
    if spec == [] then None
    else match Validate(spec[0].typ, raws[0])
      case Invalid(reason) => Some(Validation(spec[0].name, reason))
      case Valid =>
        var r := FirstFailure(spec[1..], raws[1..]);
        assert forall i :: 1 <= i < |spec| ==> spec[i] == spec[1..][i - 1] && raws[i] == raws[1..][i - 1];
        r
  }

  /**
   * `convertInput`: the wire list aligned with the spec, or the validation error
   * of the first rejected field, in which case no conversion result is produced.
   */
  function ConvertInput(spec: seq<Param>, args: Args): (r: Result<seq<Value>, Error>)
    ensures spec == [] ==> r == Success([])
    ensures r.Success? <==> forall i :: 0 <= i < |spec| ==> Accepts(spec[i], RawValue(spec[i], i, args))
    ensures r.Success? ==> (|r.value| == |spec| &&
      forall i :: 0 <= i < |spec| ==> r.value[i] == Convert(In, spec[i].typ, RawValue(spec[i], i, args)))
    ensures r.Failure? ==>
      exists i :: 0 <= i < |spec| && !Accepts(spec[i], RawValue(spec[i], i, args)) &&
        r.error == Validation(spec[i].name, Validate(spec[i].typ, RawValue(spec[i], i, args)).reason) &&
        forall j :: 0 <= j < i ==> Accepts(spec[j], RawValue(spec[j], j, args))
  {
    var raws := RawValues(spec, args);
    match FirstFailure(spec, raws)
    case Some(e) => Failure(e)
    case None => Success(seq(|spec|, i requires 0 <= i < |spec| => Convert(In, spec[i].typ, raws[i])))
  }

  /** `convertOutput`: the i-th wire value, converted by the i-th field's type, under the i-th field's name. */
  function ConvertOutput(spec: seq<Param>, values: seq<Value>): (r: map<string, Value>)
    ensures r.Keys == set i | 0 <= i < |spec| && i < |values| :: spec[i].name
  {
    if spec == [] then map[]
    else
      var n := |spec| - 1;
      var prev := ConvertOutput(spec[..n], values);
      assert forall i :: 0 <= i < n ==> spec[..n][i] == spec[i];
      if n < |values| then prev[spec[n].name := Convert(Out, spec[n].typ, values[n])] else prev
  }

  /** Called with a record holding exactly the values that would be passed positionally, the codec answers the same. */
  lemma NamedAndPositionalAgree(spec: seq<Param>, record: map<string, Value>, values: seq<Value>)
    requires forall i :: 0 <= i < |spec| ==> Get(record, spec[i].name) == (if i < |values| then values[i] else Undefined)
    ensures ConvertInput(spec, Named(record)) == ConvertInput(spec, Positional(values))
  {
    assert RawValues(spec, Named(record)) == RawValues(spec, Positional(values));
  }

  /** A field nobody supplied takes its default, which is validated and converted like a supplied value. */
  lemma DefaultIsValidatedAndUsed(spec: seq<Param>, args: Args, i: nat)
    requires i < |spec| && spec[i].defaultValue.Some? && Supplied(spec[i], i, args) == Undefined
    ensures !Accepts(spec[i], spec[i].defaultValue.value) ==> ConvertInput(spec, args).Failure?
    ensures ConvertInput(spec, args).Success? ==>
      ConvertInput(spec, args).value[i] == Convert(In, spec[i].typ, spec[i].defaultValue.value)
  {
  }

  /** The wire value at position `i` appears under field `i`'s name, unless a later field of the same name overrides it. */
  lemma {:induction false} ConvertOutputAt(spec: seq<Param>, values: seq<Value>, i: nat)
    requires i < |spec| && i < |values|
    requires forall j :: i < j < |spec| && j < |values| ==> spec[j].name != spec[i].name
    ensures ConvertOutput(spec, values)[spec[i].name] == Convert(Out, spec[i].typ, values[i])
  {
    var n := |spec| - 1;
    assert forall k :: 0 <= k < n ==> spec[..n][k] == spec[k];
    if i < n {
      ConvertOutputAt(spec[..n], values, i);
    }
  }

  /** Wire values beyond the spec's length are ignored. */
  lemma {:induction false} ConvertOutputIgnoresExtra(spec: seq<Param>, values: seq<Value>, extra: seq<Value>)
    requires |values| >= |spec|
    ensures ConvertOutput(spec, values + extra) == ConvertOutput(spec, values)
  {
    if spec != [] {
      var n := |spec| - 1;
      ConvertOutputIgnoresExtra(spec[..n], values, extra);
      assert (values + extra)[n] == values[n];
    }
  }

  predicate UniqueNames(spec: seq<Param>) {
    forall i, j :: 0 <= i < j < |spec| ==> spec[i].name != spec[j].name
  }

  /**
   * For types that convert in neither direction, decoding what was encoded gives back,
   * under each field's name, the value the caller supplied (or the default used instead).
   */
  lemma RoundTrip(spec: seq<Param>, args: Args, wire: seq<Value>)
    requires UniqueNames(spec)
    requires forall i :: 0 <= i < |spec| ==>
      PassThrough(In, spec[i].typ) && PassThrough(Out, spec[i].typ) && Fits(spec[i].typ, RawValue(spec[i], i, args))
    requires ConvertInput(spec, args) == Success(wire)
    ensures forall i :: 0 <= i < |spec| ==> ConvertOutput(spec, wire)[spec[i].name] == RawValue(spec[i], i, args)
  {
    forall i | 0 <= i < |spec|
      ensures ConvertOutput(spec, wire)[spec[i].name] == RawValue(spec[i], i, args)
    {
      var raw := RawValue(spec[i], i, args);
      PassThroughIdentity(In, spec[i].typ, raw);
      PassThroughIdentity(Out, spec[i].typ, raw);
      ConvertOutputAt(spec, wire, i);
    }
  }

  /** Encoding with the string-and-defaulted-integer spec of the codec's tests, once the raw values are known. */
  lemma DefaultExampleFor(args: Args)
    requires Supplied(Param("name", String, None), 0, args) == Str("james")
    requires Supplied(Param("id", Integer, Some(Num(5))), 1, args) == Undefined
    ensures ConvertInput([Param("name", String, None), Param("id", Integer, Some(Num(5)))], args)
      == Success([Str("0x6a616d6573"), Num(5)])
  {
    var spec := [Param("name", String, None), Param("id", Integer, Some(Num(5)))];
    Hex.StringToHexJames();
    assert RawValue(spec[0], 0, args) == Str("james");
    assert RawValue(spec[1], 1, args) == Num(5);
    assert Accepts(spec[0], Str("james")) && Accepts(spec[1], Num(5));
    assert Convert(In, String, Str("james")) == Str("0x6a616d6573");
    assert Convert(In, Integer, Num(5)) == Num(5);
    var r := ConvertInput(spec, args);
    assert r.value[0] == Str("0x6a616d6573") && r.value[1] == Num(5);
    assert r.value == [Str("0x6a616d6573"), Num(5)];
  }

  /** The codec's tests: "james" is hex-encoded and the missing id takes its default 5, in both argument forms. */
  lemma DefaultExample()
    ensures var spec := [Param("name", String, None), Param("id", Integer, Some(Num(5)))];
      && ConvertInput(spec, Named(map["name" := Str("james")])) == Success([Str("0x6a616d6573"), Num(5)])
      && ConvertInput(spec, Positional([Str("james")])) == Success([Str("0x6a616d6573"), Num(5)])
  {
    DefaultExampleFor(Named(map["name" := Str("james")]));
    DefaultExampleFor(Positional([Str("james")]));
  }

  /** Encoding with the string-and-boolean spec of the codec's tests when the flag is not a boolean. */
  lemma MissingBooleanFor(args: Args)
    requires Supplied(Param("name", String, None), 0, args) == Str("james")
    requires !Supplied(Param("isTrue", Boolean, None), 1, args).Bool?
    ensures ConvertInput([Param("name", String, None), Param("isTrue", Boolean, None)], args)
      == Failure(Validation("isTrue", "Must be a boolean"))
  {
    var spec := [Param("name", String, None), Param("isTrue", Boolean, None)];
    assert RawValue(spec[0], 0, args) == Str("james");
    assert Accepts(spec[0], Str("james"));
    assert !Accepts(spec[1], RawValue(spec[1], 1, args));
  }

  /** The codec's tests: a missing or non-boolean flag fails naming the field, whichever form the arguments take. */
  lemma MissingBooleanExample(flag: Value)
    requires !flag.Bool?
    ensures var spec := [Param("name", String, None), Param("isTrue", Boolean, None)];
      && ConvertInput(spec, Named(map["name" := Str("james")])) == Failure(Validation("isTrue", "Must be a boolean"))
      && ConvertInput(spec, Named(map["name" := Str("james"), "isTrue" := flag])) == Failure(Validation("isTrue", "Must be a boolean"))
      && ConvertInput(spec, Positional([Str("james"), flag])) == Failure(Validation("isTrue", "Must be a boolean"))
  {
    MissingBooleanFor(Named(map["name" := Str("james")]));
    MissingBooleanFor(Named(map["name" := Str("james"), "isTrue" := flag]));
    MissingBooleanFor(Positional([Str("james"), flag]));
  }
}
