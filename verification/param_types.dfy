/**
 * The closed set of parameter types: each can validate a value and convert it
 * towards the wire (input) and back from it (output). A tuple type is built from
 * a named list of field types and works field by field. `Custom` stands for a
 * type object supplied by the caller (an override), whose conversions may be absent.
 */
module ParamTypes {
  import opened Wrappers
  import opened JsValues
  import Hex

  /** The outcome of a type's `validate`: accepted, or rejected with the reason it throws. */
  datatype Check = Valid | Invalid(reason: string)

  datatype Direction = In | Out

  datatype ParamType =
    | Address
    | Integer
    | Boolean
    | String
    | Tuple(fields: seq<Param>)
    | Custom(validate: Value -> Check, convertInput: Option<Value -> Value>, convertOutput: Option<Value -> Value>)

  /** A parameter spec: `{name, type, defaultValue?}`. Tuple fields carry no default. */
  datatype Param = Param(name: string, typ: ParamType, defaultValue: Option<Value>)

  /** One entry of a function's params object: a signature and the params it takes. */
  datatype Overload = Overload(signature: string, params: seq<Param>)

  function Names(ps: seq<Param>): (ns: seq<string>)
    ensures |ns| == |ps|
    ensures forall i :: 0 <= i < |ps| ==> ns[i] == ps[i].name
  {
    if ps == [] then [] else [ps[0].name] + Names(ps[1..])
  }

  predicate IsHexChar(c: char) {
    '0' <= c <= '9' || 'a' <= c <= 'f' || 'A' <= c <= 'F'
  }

  /** An address: "0x" followed by forty hex digits. */
  predicate IsAddress(s: string) {
    |s| == 42 && s[..2] == "0x" && forall k :: 2 <= k < |s| ==> IsHexChar(s[k])
  }

  /** A type's `validate`; a tuple reports the first failing field's reason. */
  function Validate(t: ParamType, v: Value): (r: Check)
    decreases t
    ensures t.Address? ==> (r.Valid? <==> v.Str? && IsAddress(v.s))
    ensures t.Integer? ==> (r.Valid? <==> v.Num? || v.BigNum?)
    ensures t.Boolean? ==> (r.Valid? <==> v.Bool?)
    ensures t.String? ==> (r.Valid? <==> v.Str?)
    ensures t.Tuple? ==> (r.Valid? <==> (v.Obj? &&
      forall i :: 0 <= i < |t.fields| ==> Validate(t.fields[i].typ, FieldValue(t.fields[i], v.props)).Valid?))
    ensures t.Tuple? && !v.Obj? ==> r == Invalid("Must be an object")
  {
    match t
    case Address => if v.Str? && IsAddress(v.s) then Valid else Invalid("Must be a valid address")
    case Integer => if v.Num? || v.BigNum? then Valid else Invalid("Must be a valid integer")
    case Boolean => if v.Bool? then Valid else Invalid("Must be a boolean")
    case String => if v.Str? then Valid else Invalid("Must be a string")
    case Tuple(fs) => if v.Obj? then ValidateFields(fs, v.props) else Invalid("Must be an object")
    case Custom(check, _, _) => check(v)
  }

  /** The field value a tuple's functions see: the record's property of that name. */
  function FieldValue(f: Param, props: map<string, Value>): Value {
    Get(props, f.name)
  }

  function ValidateFields(fs: seq<Param>, props: map<string, Value>): (r: Check)
    decreases fs
    ensures r.Valid? <==> forall i :: 0 <= i < |fs| ==> Validate(fs[i].typ, FieldValue(fs[i], props)).Valid?
    ensures r.Invalid? ==>
      exists i :: 0 <= i < |fs| && Validate(fs[i].typ, FieldValue(fs[i], props)) == r &&
        forall j :: 0 <= j < i ==> Validate(fs[j].typ, FieldValue(fs[j], props)).Valid?
  {
    if fs == [] then Valid
    else match Validate(fs[0].typ, FieldValue(fs[0], props))
      case Invalid(reason) => Invalid(reason)
      case Valid =>
        var r := ValidateFields(fs[1..], props);
        assert forall i :: 1 <= i < |fs| ==> fs[i] == fs[1..][i - 1];
        r
  }

  /** A type's `convertInput` (towards the wire) or `convertOutput` (back from it). */
  function Convert(d: Direction, t: ParamType, v: Value): (r: Value)
    decreases t
    ensures t.Address? || t.Integer? || t.Boolean? ==> r == v
    ensures t.String? && d == In && v.Str? ==> r == Str(Hex.StringToHex(v.s))
    ensures t.String? && d == Out ==> r == v
    ensures t.Tuple? && v.Obj? ==> r.Obj? && r.props.Keys == set i | 0 <= i < |t.fields| :: t.fields[i].name
  {
    match t
    case String =>
      if d == In && v.Str? then Str(Hex.StringToHex(v.s)) else v
    case Tuple(fs) => if v.Obj? then Obj(ConvertFields(d, fs, v.props)) else v
    case Custom(_, ci, co) =>
      var conversion := if d == In then ci else co;
      if conversion.Some? then conversion.value(v) else v
    case _ => v
  }

  /** The converted record of a tuple: one property per field, later fields overriding earlier namesakes. */
  function ConvertFields(d: Direction, fs: seq<Param>, props: map<string, Value>): (r: map<string, Value>)
    decreases fs
    ensures r.Keys == set i | 0 <= i < |fs| :: fs[i].name
  {
    if fs == [] then map[]
    else
      var rest := ConvertFields(d, fs[1..], props);
      assert forall i :: 1 <= i < |fs| ==> fs[i] == fs[1..][i - 1];
      assert (set i | 0 <= i < |fs| :: fs[i].name) == {fs[0].name} + set i | 0 <= i < |fs[1..]| :: fs[1..][i].name;
      if fs[0].name in rest then rest else rest[fs[0].name := Convert(d, fs[0].typ, FieldValue(fs[0], props))]
  }

  /** Each field's property holds that field's own conversion of its value (the last field of a name wins). */
  lemma {:induction false} ConvertFieldsAt(d: Direction, fs: seq<Param>, props: map<string, Value>, i: nat)
    requires i < |fs|
    requires forall j :: i < j < |fs| ==> fs[j].name != fs[i].name
    ensures ConvertFields(d, fs, props)[fs[i].name] == Convert(d, fs[i].typ, FieldValue(fs[i], props))
  {
    var rest := ConvertFields(d, fs[1..], props);
    if i == 0 {
      assert forall j :: 0 <= j < |fs[1..]| ==> fs[1..][j].name == fs[j + 1].name;
    } else {
      ConvertFieldsAt(d, fs[1..], props, i - 1);
      assert fs[1..][i - 1] == fs[i];
    }
  }

  /** The type defines no conversion in direction `d` (for a tuple: none of its fields does). */
  predicate PassThrough(d: Direction, t: ParamType)
    decreases t
  {
    match t
    case String => d == Out
    case Tuple(fs) => forall i :: 0 <= i < |fs| ==> PassThrough(d, fs[i].typ)
    case Custom(_, ci, co) => if d == In then ci.None? else co.None?
    case _ => true
  }

  /** The value has the shape of the type: a tuple value holds exactly the tuple's fields, each fitting. */
  predicate Fits(t: ParamType, v: Value)
    decreases t
  {
    match t
    case Tuple(fs) =>
      && v.Obj?
      && v.props.Keys == (set i | 0 <= i < |fs| :: fs[i].name)
      && forall i :: 0 <= i < |fs| ==> Fits(fs[i].typ, FieldValue(fs[i], v.props))
    case _ => true
  }

  /** A type without conversions hands a value of its shape through unchanged. */
  lemma {:induction false} PassThroughIdentity(d: Direction, t: ParamType, v: Value)
    requires PassThrough(d, t) && Fits(t, v)
    ensures Convert(d, t, v) == v
    decreases t
  {
    match t
    case Tuple(fs) =>
      var r := ConvertFields(d, fs, v.props);
      forall k | k in r
        ensures r[k] == v.props[k]
      {
        var i :| 0 <= i < |fs| && fs[i].name == k;
        var last := LastWithName(fs, i);
        ConvertFieldsAt(d, fs, v.props, last);
        PassThroughIdentity(d, fs[last].typ, FieldValue(fs[last], v.props));
      }
      assert r == v.props;
    case _ =>
  }

  /** The last index whose field shares the name of field `i`. */
  function LastWithName(fs: seq<Param>, i: nat): (k: nat)
    requires i < |fs|
    ensures i <= k < |fs| && fs[k].name == fs[i].name
    ensures forall j :: k < j < |fs| ==> fs[j].name != fs[i].name
    decreases |fs| - i
  {
    if exists j :: i < j < |fs| && fs[j].name == fs[i].name then
      var j :| i < j < |fs| && fs[j].name == fs[i].name;
      LastWithName(fs, j)
    else i
  }
}
