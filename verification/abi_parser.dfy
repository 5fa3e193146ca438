/**
 * The ABI parser: turns the JSON entries of a contract ABI into method, constant
 * and event specs, grouped by name into ordered overload lists. Type names
 * resolve to the closed set of parameter types; `tuple` is built from its components.
 */
module AbiParser {
  import opened Wrappers
  import opened JsValues
  import opened ParamTypes
  import opened Errors
  import Text

  /** A parameter of an ABI entry: `{name?, type, components?}`. */
  datatype RawParam = RawParam(name: Option<string>, typeName: string, components: Components)

  /** The `components` property of a parameter, which only tuples carry. */
  datatype Components = Absent | Present(list: seq<RawParam>)

  /** An ABI entry: `{type, name, inputs?, outputs?, constant?, stateMutability?, payable?}`. */
  datatype RawEntry = RawEntry(
    kind: string,
    name: string,
    inputs: Option<seq<RawParam>>,
    outputs: Option<seq<RawParam>>,
    constant: Option<bool>,
    stateMutability: Option<string>,
    payable: Option<bool>)

  /** The specs the parser builds; an event has no `input` and a constant no `isPayable`. */
  datatype FunctionSpec =
    | MethodSpec(name: string, input: seq<Param>, output: seq<Param>, isPayable: bool)
    | ConstantSpec(name: string, input: seq<Param>, output: seq<Param>)
    | EventSpec(name: string, output: seq<Param>)

  datatype Category = Skip | Methods | Constants | Events

  predicate IsConstant(e: RawEntry) {
    e.constant == Some(true) || e.stateMutability == Some("view") || e.stateMutability == Some("pure")
  }

  predicate IsPayable(e: RawEntry) {
    e.payable == Some(true) || e.stateMutability == Some("payable")
  }

  /** Which table an entry goes to; constructors go nowhere. */
  function CategoryOf(e: RawEntry): (r: Category)
    ensures r == Skip <==> e.kind == "constructor"
    ensures r == Events <==> e.kind == "event"
    ensures r == Constants <==> e.kind != "constructor" && e.kind != "event" && IsConstant(e)
  {
    if e.kind == "constructor" then Skip
    else if e.kind == "event" then Events
    else if IsConstant(e) then Constants
    else Methods
  }

  // ---------------------------------------------------------------- types

  predicate IsDigits(s: string) {
    |s| > 0 && forall k :: 0 <= k < |s| ==> '0' <= s[k] <= '9'
  }

  /** `int`, `uint`, and either followed by a bit width. */
  predicate IsIntegerName(t: string) {
    || t == "int" || t == "uint"
    || (|t| > 3 && t[..3] == "int" && IsDigits(t[3..]))
    || (|t| > 4 && t[..4] == "uint" && IsDigits(t[4..]))
  }

  /**
   * `parseType`, parametrised by whether the fields of a tuple are resolved together
   * with their own components (`forward`) or by their type name alone. `top` marks a
   * type resolved for a parameter list, which is always given its components.
   */
  function ResolveType(forward: bool, top: bool, typeName: string, components: Components): (r: Result<ParamType, Error>)
    decreases components, 1
  {
    if typeName == "tuple" then ResolveTuple(forward, top, components)
    else if typeName == "address" then Success(Address)
    else if typeName == "bool" then Success(Boolean)
    else if typeName == "string" then Success(String)
    else if IsIntegerName(typeName) then Success(Integer)
    else Failure(UnknownType(typeName))
  }

  /** `parseTupleType`: a tuple type with one field per component. */
  function ResolveTuple(forward: bool, top: bool, components: Components): (r: Result<ParamType, Error>)
    decreases components, 0
  {
    if !(forward || top) || components.Absent? then Failure(MalformedSpec("A tuple type needs its components"))
    else
      var cs := components.list;
      match ResolveFields(forward, cs, 0)
      case Failure(e) => Failure(e)
      case Success(fields) => Success(Tuple(fields))
  }

  /** The tuple fields for components `cs`, the first of which sits at index `offset`. */
  function ResolveFields(forward: bool, cs: seq<RawParam>, offset: nat): (r: Result<seq<Param>, Error>)
    decreases cs
    ensures r.Success? ==> |r.value| == |cs|
    ensures r.Success? ==> forall k :: 0 <= k < |cs| ==>
      && r.value[k].name == ParseFieldName(cs[k].name, offset + k)
      && ResolveType(forward, false, cs[k].typeName, cs[k].components) == Success(r.value[k].typ)
      && r.value[k].defaultValue.None?
  {
    if cs == [] then Success([])
    else
      match ResolveType(forward, false, cs[0].typeName, cs[0].components)
      case Failure(e) => Failure(e)
      case Success(t) =>
        match ResolveFields(forward, cs[1..], offset + 1)
        case Failure(e) => Failure(e)
        case Success(rest) =>
          assert forall k :: 1 <= k < |cs| ==> cs[k] == cs[1..][k - 1];
          Success([Param(ParseFieldName(cs[0].name, offset), t, None)] + rest)
  }

  /** `parseType(type, components)`: the resolver the parser uses. */
  function ParseType(typeName: string, components: Components): Result<ParamType, Error> {
    ResolveType(true, true, typeName, components)
  }

  /** `parseTupleType(components)`: each field resolved with its own components. */
  function ParseTupleType(components: Components): Result<ParamType, Error> {
    ResolveTuple(true, true, components)
  }

  /**
   * The type names the parser knows: only those resolve; any other fails naming it; and
   * exactly `tuple` resolves to a tuple type.
   */
  lemma ParseTypeCases(typeName: string, components: Components)
    ensures var r := ParseType(typeName, components);
      && (r.Success? ==> typeName in {"tuple", "address", "bool", "string"} || IsIntegerName(typeName))
      && (typeName != "tuple" ==> (r.Success? <==> (typeName in {"address", "bool", "string"} || IsIntegerName(typeName))))
      && (typeName != "tuple" && r.Failure? ==> r.error == UnknownType(typeName))
      && (r.Success? ==> (r.value.Tuple? <==> typeName == "tuple"))
  {
    if typeName == "tuple" {
      var r := ResolveTuple(true, true, components);
      assert ParseType(typeName, components) == r;
      if r.Success? {
        assert r == Success(Tuple(ResolveFields(true, components.list, 0).value));
      }
    }
  }

  /** A tuple needs its components, and has one field per component, named by its position when unnamed. */
  lemma ParseTupleTypeShape(components: Components)
    ensures var r := ParseTupleType(components);
      && (components.Absent? ==> r.Failure? && r.error.MalformedSpec?)
      && (r.Success? ==> (r.value.Tuple? && |r.value.fields| == |components.list| &&
        forall k :: 0 <= k < |components.list| ==> r.value.fields[k].name == ParseFieldName(components.list[k].name, k)))
  {
  }

  /** `parseTupleType` as its recorded calls show it: fields resolved by type name alone. */
  function ParseTupleTypeAsWritten(components: Components): Result<ParamType, Error> {
    ResolveTuple(false, true, components)
  }

  /** Every name outside the known set is refused, naming the type, whatever components come with it. */
  lemma UnknownTypeRejected(typeName: string, components: Components)
    requires typeName !in {"tuple", "address", "bool", "string"} && !IsIntegerName(typeName)
    ensures ParseType(typeName, components) == Failure(UnknownType(typeName))
    ensures ParseType(typeName, components).error.Message() == "Type \"" + typeName + "\" could not be matched"
  {
  }

  /** The type names of the parser's tests: `address`, `uint8`, and one it cannot match. */
  lemma ParseTypeExamples()
    ensures ParseType("address", Absent) == Success(Address)
    ensures ParseType("uint8", Absent) == Success(Integer)
    ensures ParseType("an invalid type", Absent) == Failure(UnknownType("an invalid type"))
  {
    assert IsIntegerName("uint8") by { assert "uint8"[..4] == "uint" && IsDigits("uint8"[4..]); }
    assert !IsIntegerName("an invalid type") by {
      var t := "an invalid type";
      assert t[..3][0] == 'a' && t[..4][0] == 'a';
    }
  }

  // ---------------------------------------------------------------- params

  /** `parseFieldName(name, index)`: the given name, or `field_<index>` when it is missing or empty. */
  function ParseFieldName(name: Option<string>, index: nat): (r: string)
    ensures r != ""
    ensures name.Some? && name.value != "" ==> r == name.value
    ensures name.None? || name.value == "" ==> r == "field_" + Text.NatToString(index)
  {
    if name.None? || name.value == "" then "field_" + Text.NatToString(index) else name.value
  }

  /** `parseParams(params, owner)`: one spec per raw parameter, in order, or the first resolution error. */
  function ParseParams(raw: seq<RawParam>, owner: string): (r: Result<seq<Param>, Error>)
    ensures r.Success? <==> forall i :: 0 <= i < |raw| ==> ParseType(raw[i].typeName, raw[i].components).Success?
    ensures r.Success? ==> |r.value| == |raw| && forall i :: 0 <= i < |raw| ==>
      && r.value[i].name == ParseFieldName(raw[i].name, i)
      && Success(r.value[i].typ) == ParseType(raw[i].typeName, raw[i].components)
      && r.value[i].defaultValue.None?
    ensures r.Failure? ==> exists i :: (0 <= i < |raw| && ParseType(raw[i].typeName, raw[i].components) == Failure(r.error) &&
      forall j :: 0 <= j < i ==> ParseType(raw[j].typeName, raw[j].components).Success?)
  {
    ParamsFromSpec(raw, 0);
    ParamsFrom(raw, 0)
  }

  function ParamsFrom(raw: seq<RawParam>, offset: nat): (r: Result<seq<Param>, Error>)
    ensures r.Success? ==> |r.value| == |raw|
  {
    if raw == [] then Success([])
    else
      match ParseType(raw[0].typeName, raw[0].components)
      case Failure(e) => Failure(e)
      case Success(t) =>
        match ParamsFrom(raw[1..], offset + 1)
        case Failure(e) => Failure(e)
        case Success(rest) => Success([Param(ParseFieldName(raw[0].name, offset), t, None)] + rest)
  }

  /** `ParamsFrom` resolves every parameter in order, or fails with some parameter's error. */
  lemma {:induction false} ParamsFromSpec(raw: seq<RawParam>, offset: nat)
    ensures var r := ParamsFrom(raw, offset);
      && (r.Success? <==> forall i :: 0 <= i < |raw| ==> ParseType(raw[i].typeName, raw[i].components).Success?)
      && (r.Success? ==> forall i :: 0 <= i < |raw| ==>
        && r.value[i].name == ParseFieldName(raw[i].name, offset + i)
        && Success(r.value[i].typ) == ParseType(raw[i].typeName, raw[i].components)
        && r.value[i].defaultValue.None?)
      && (r.Failure? ==> exists i :: (0 <= i < |raw| && ParseType(raw[i].typeName, raw[i].components) == Failure(r.error) &&
        forall j :: 0 <= j < i ==> ParseType(raw[j].typeName, raw[j].components).Success?))
  {
    if raw != [] {
      var tail := raw[1..];
      ParamsFromSpec(tail, offset + 1);
      assert forall k :: 1 <= k < |raw| ==> raw[k] == tail[k - 1];
      var r := ParamsFrom(raw, offset);
      var head := ParseType(raw[0].typeName, raw[0].components);
      if head.Success? {
        var rest := ParamsFrom(tail, offset + 1);
        if rest.Failure? {
          var i :| 0 <= i < |tail| && ParseType(tail[i].typeName, tail[i].components) == Failure(rest.error) &&
            forall j :: 0 <= j < i ==> ParseType(tail[j].typeName, tail[j].components).Success?;
          assert ParseType(raw[i + 1].typeName, raw[i + 1].components) == Failure(r.error);
          assert forall j :: 0 <= j < i + 1 ==> ParseType(raw[j].typeName, raw[j].components).Success?;
        } else {
          assert r.value == [Param(ParseFieldName(raw[0].name, offset), head.value, None)] + rest.value;
          assert forall i :: 1 <= i < |raw| ==> r.value[i] == rest.value[i - 1];
        }
      }
    }
  }

  predicate Unnamed(p: RawParam) {
    p.name.None? || p.name.value == ""
  }

  function WarningText(typeName: string, owner: string): string {
    "No name supplied for field of type \"" + typeName + "\" of method \"" + owner + "\""
  }

  /** The positions of the unnamed parameters, in increasing order. */
  function UnnamedPositions(raw: seq<RawParam>): (ps: seq<nat>)
    ensures forall k :: 0 <= k < |ps| ==> ps[k] < |raw| && Unnamed(raw[ps[k]])
    ensures forall i :: 0 <= i < |raw| && Unnamed(raw[i]) ==> i in ps
    ensures forall k, l :: 0 <= k < l < |ps| ==> ps[k] < ps[l]
  {
    if raw == [] then []
    else
      var n := |raw| - 1;
      assert forall i :: 0 <= i < n ==> raw[..n][i] == raw[i];
      UnnamedPositions(raw[..n]) + (if Unnamed(raw[n]) then [n] else [])
  }

  /**
   * The warnings `parseParams` prints: one per unnamed parameter, in order, each naming
   * that parameter's type and the owner.
   */
  function ParamWarnings(raw: seq<RawParam>, owner: string): (ws: seq<string>)
    ensures var ps := UnnamedPositions(raw);
      |ws| == |ps| && forall k :: 0 <= k < |ps| ==> ws[k] == WarningText(raw[ps[k]].typeName, owner)
  {
    if raw == [] then []
    else
      var n := |raw| - 1;
      var prev := ParamWarnings(raw[..n], owner);
      assert forall i :: 0 <= i < n ==> raw[..n][i] == raw[i];
      assert UnnamedPositions(raw) == UnnamedPositions(raw[..n]) + (if Unnamed(raw[n]) then [n] else []);
      prev + (if Unnamed(raw[n]) then [WarningText(raw[n].typeName, owner)] else [])
  }

  /** No warning is printed exactly when every parameter is named. */
  lemma NoWarningsIffNamed(raw: seq<RawParam>, owner: string)
    ensures ParamWarnings(raw, owner) == [] <==> forall i :: 0 <= i < |raw| ==> !Unnamed(raw[i])
  {
    var ps := UnnamedPositions(raw);
    if ps != [] {
      assert Unnamed(raw[ps[0]]);
    }
  }

  /** Generated field names never collide with each other. */
  lemma GeneratedNamesDistinct(i: nat, j: nat)
    requires i != j
    ensures ParseFieldName(None, i) != ParseFieldName(None, j)
  {
    var a, b := ParseFieldName(None, i), ParseFieldName(None, j);
    if a == b {
      assert a[6..] == Text.NatToString(i) && b[6..] == Text.NatToString(j);
      Text.NatToStringInjective(i, j);
    }
  }

  // ---------------------------------------------------------------- entries

  /** `parseMethodSpec`: inputs and outputs as params, payability from the entry. */
  function ParseMethodSpec(e: RawEntry): (r: Result<FunctionSpec, Error>)
    ensures r.Success? ==> r.value.MethodSpec? && r.value.name == e.name && r.value.isPayable == IsPayable(e)
    ensures r.Success? <==> ParseParams(e.inputs.GetOr([]), e.name).Success? && ParseParams(e.outputs.GetOr([]), e.name).Success?
    ensures r.Success? ==> Success(r.value.input) == ParseParams(e.inputs.GetOr([]), e.name)
    ensures r.Success? ==> Success(r.value.output) == ParseParams(e.outputs.GetOr([]), e.name)
    ensures e.inputs.None? && e.outputs.None? ==> r == Success(MethodSpec(e.name, [], [], IsPayable(e)))
  {
    match ParseParams(e.inputs.GetOr([]), e.name)
    case Failure(err) => Failure(err)
    case Success(input) =>
      match ParseParams(e.outputs.GetOr([]), e.name)
      case Failure(err) => Failure(err)
      case Success(output) => Success(MethodSpec(e.name, input, output, IsPayable(e)))
  }

  /** The outputs a constant's spec is parsed from: an unnamed output takes the constant's name. */
  function ConstantOutputs(outputs: seq<RawParam>, name: string): (os: seq<RawParam>)
    ensures |os| == |outputs|
    ensures forall i :: 0 <= i < |outputs| ==>
      && os[i].typeName == outputs[i].typeName && os[i].components == outputs[i].components
      && (Unnamed(outputs[i]) ==> os[i].name == Some(name))
      && (!Unnamed(outputs[i]) ==> os[i].name == outputs[i].name)
  {
    seq(|outputs|, i requires 0 <= i < |outputs| =>
      if Unnamed(outputs[i]) then outputs[i].(name := Some(name)) else outputs[i])
  }

  /** A constant with a name never warns about its outputs: each has a name once renamed. */
  lemma ConstantOutputsNamed(outputs: seq<RawParam>, name: string)
    requires name != ""
    ensures ParamWarnings(ConstantOutputs(outputs, name), name) == []
  {
    NoWarningsIffNamed(ConstantOutputs(outputs, name), name);
  }

  /**
   * `parseConstantSpec`: like a method spec, without payability; an unnamed output is
   * named after the constant before its params are parsed.
   */
  function ParseConstantSpec(e: RawEntry): (r: Result<FunctionSpec, Error>)
    ensures r.Success? ==> r.value.ConstantSpec? && r.value.name == e.name
    ensures r.Success? <==> (ParseParams(e.inputs.GetOr([]), e.name).Success? &&
      ParseParams(ConstantOutputs(e.outputs.GetOr([]), e.name), e.name).Success?)
    ensures r.Success? ==> Success(r.value.input) == ParseParams(e.inputs.GetOr([]), e.name)
    ensures r.Success? ==> Success(r.value.output) == ParseParams(ConstantOutputs(e.outputs.GetOr([]), e.name), e.name)
    ensures e.inputs.None? && e.outputs.None? ==> r == Success(ConstantSpec(e.name, [], []))
  {
    match ParseParams(e.inputs.GetOr([]), e.name)
    case Failure(err) => Failure(err)
    case Success(input) =>
      match ParseParams(ConstantOutputs(e.outputs.GetOr([]), e.name), e.name)
      case Failure(err) => Failure(err)
      case Success(output) => Success(ConstantSpec(e.name, input, output))
  }

  /** `parseEventSpec`: the entry's inputs are the event's output; its outputs play no part. */
  function ParseEventSpec(e: RawEntry): (r: Result<FunctionSpec, Error>)
    ensures r.Success? ==> r.value.EventSpec? && r.value.name == e.name
    ensures r.Success? <==> ParseParams(e.inputs.GetOr([]), e.name).Success?
    ensures r.Success? ==> Success(r.value.output) == ParseParams(e.inputs.GetOr([]), e.name)
    ensures e.inputs.None? ==> r == Success(EventSpec(e.name, []))
  {
    match ParseParams(e.inputs.GetOr([]), e.name)
    case Failure(err) => Failure(err)
    case Success(output) => Success(EventSpec(e.name, output))
  }

  /** The builder an entry of a given category is handed to. */
  function Build(e: RawEntry): Result<FunctionSpec, Error>
    requires CategoryOf(e) != Skip
  {
    match CategoryOf(e)
    case Methods => ParseMethodSpec(e)
    case Constants => ParseConstantSpec(e)
    case Events => ParseEventSpec(e)
  }

  // ---------------------------------------------------------------- tables

  type Table = map<string, seq<FunctionSpec>>

  datatype Tables = Tables(constants: Table, events: Table, methods: Table) {
    function Get(c: Category): Table {
      match c
      case Constants => constants
      case Events => events
      case _ => methods
    }
  }

  /** The overload list under `name`: empty when the name is absent. */
  function Overloads(t: Table, name: string): seq<FunctionSpec> {
    if name in t then t[name] else []
  }

  /** The spec added at the end of the list kept under its name, which starts empty. */
  function Append(t: Table, name: string, spec: FunctionSpec): (r: Table)
    ensures Overloads(r, name) == Overloads(t, name) + [spec]
    ensures forall n :: n != name ==> Overloads(r, n) == Overloads(t, n)
  {
    t[name := Overloads(t, name) + [spec]]
  }

  function AddTo(t: Tables, c: Category, name: string, spec: FunctionSpec): (r: Tables)
    requires c != Skip
    ensures r.Get(c) == Append(t.Get(c), name, spec)
    ensures forall c' :: c' != Skip && c' != c ==> r.Get(c') == t.Get(c')
  {
    match c
    case Constants => t.(constants := Append(t.constants, name, spec))
    case Events => t.(events := Append(t.events, name, spec))
    case Methods => t.(methods := Append(t.methods, name, spec))
  }

  /** What scanning the entries in order produces: the tables, or the first entry's error. */
  function TablesOf(entries: seq<RawEntry>): Result<Tables, Error> {
    if entries == [] then Success(Tables(map[], map[], map[]))
    else
      var n := |entries| - 1;
      var e := entries[n];
      match TablesOf(entries[..n])
      case Failure(err) => Failure(err)
      case Success(t) =>
        if CategoryOf(e) == Skip then Success(t)
        else match Build(e)
          case Failure(err) => Failure(err)
          case Success(spec) => Success(AddTo(t, CategoryOf(e), e.name, spec))
  }

  /** The parser's result for a contract: its address and its tables. */
  datatype Contract = Contract(address: string, tables: Tables)

  /** `parse(contractData)`: the tables of the ABI, with the contract's address carried over. */
  function Parse(address: string, entries: seq<RawEntry>): (r: Result<Contract, Error>)
    ensures r.Success? <==> TablesOf(entries).Success?
    ensures r.Success? ==> r.value.address == address && r.value.tables == TablesOf(entries).value
  {
    match TablesOf(entries)
    case Failure(e) => Failure(e)
    case Success(tables) => Success(Contract(address, tables))
  }

  /** `parseABI`: scan the entries, appending each built spec to its table under its name. */
  method ParseAbi(entries: seq<RawEntry>) returns (r: Result<Tables, Error>)
    ensures r == TablesOf(entries)
  {
    var tables := Tables(map[], map[], map[]);
    var i := 0;
    while i < |entries|
      invariant 0 <= i <= |entries|
      invariant TablesOf(entries[..i]) == Success(tables)
    {
      var e := entries[i];
      assert entries[..i + 1][..i] == entries[..i];
      var category := CategoryOf(e);
      if category != Skip {
        var built := Build(e);
        if built.Failure? {
          r := Failure(built.error);
          assert TablesOf(entries[..i + 1]) == r;
          TablesFailureSticks(entries, i + 1);
          return;
        }
        tables := AddTo(tables, category, e.name, built.value);
      }
      i := i + 1;
    }
    assert entries[..i] == entries;
    r := Success(tables);
  }

  /** Once a prefix fails, the whole scan fails with the same error. */
  lemma {:induction false} TablesFailureSticks(entries: seq<RawEntry>, k: nat)
    requires k <= |entries| && TablesOf(entries[..k]).Failure?
    ensures TablesOf(entries) == TablesOf(entries[..k])
    decreases |entries| - k
  {
    if k < |entries| {
      assert entries[..k + 1][..k] == entries[..k];
      TablesFailureSticks(entries, k + 1);
    } else {
      assert entries[..k] == entries;
    }
  }

  /** Every name in a table is the name of an entry of that table's category. */
  lemma {:induction false} TableNamesFromEntries(entries: seq<RawEntry>, c: Category, name: string)
    requires c != Skip && TablesOf(entries).Success? && name in TablesOf(entries).value.Get(c)
    ensures exists e :: e in entries && CategoryOf(e) == c && e.name == name
  {
    var n := |entries| - 1;
    var e := entries[n];
    var t := TablesOf(entries[..n]).value;
    if CategoryOf(e) != Skip {
      assert TablesOf(entries).value == AddTo(t, CategoryOf(e), e.name, Build(e).value);
    }
    if !(CategoryOf(e) == c && e.name == name) {
      assert name in t.Get(c);
      TableNamesFromEntries(entries[..n], c, name);
      var x :| x in entries[..n] && CategoryOf(x) == c && x.name == name;
      assert x in entries;
    }
  }

  /** The entries of a category with a given name, in declaration order. */
  function Matching(entries: seq<RawEntry>, c: Category, name: string): (ms: seq<RawEntry>)
    ensures forall m :: m in ms ==> m in entries && CategoryOf(m) == c && m.name == name
  {
    if entries == [] then []
    else
      var n := |entries| - 1;
      var e := entries[n];
      Matching(entries[..n], c, name) + (if CategoryOf(e) == c && e.name == name then [e] else [])
  }

  /**
   * Nothing that matches is missed: every entry of the category and name is selected,
   * as often as it occurs, and nothing else is.
   */
  lemma {:induction false} MatchingComplete(entries: seq<RawEntry>, c: Category, name: string)
    ensures var ms := Matching(entries, c, name);
      forall m :: multiset(ms)[m] == if CategoryOf(m) == c && m.name == name then multiset(entries)[m] else 0
  {
    if entries != [] {
      var n := |entries| - 1;
      MatchingComplete(entries[..n], c, name);
      assert entries == entries[..n] + [entries[n]];
    }
  }

  /** The scan succeeds exactly when every entry that is not a constructor builds. */
  lemma {:induction false} TablesSucceedIff(entries: seq<RawEntry>)
    ensures TablesOf(entries).Success? <==> forall e :: e in entries && CategoryOf(e) != Skip ==> Build(e).Success?
  {
    if entries != [] {
      var n := |entries| - 1;
      TablesSucceedIff(entries[..n]);
      assert entries == entries[..n] + [entries[n]];
    }
  }

  /**
   * Same-name entries are kept, none overwriting another: the list under a name holds
   * the built spec of every entry of that category and name, in declaration order.
   */
  lemma {:induction false} OverloadsInOrder(entries: seq<RawEntry>, c: Category, name: string)
    requires c != Skip && TablesOf(entries).Success?
    ensures var ms := Matching(entries, c, name);
      var os := Overloads(TablesOf(entries).value.Get(c), name);
      |os| == |ms| && forall k :: 0 <= k < |ms| ==> Build(ms[k]) == Success(os[k])
  {
    if entries != [] {
      var n := |entries| - 1;
      var e := entries[n];
      var prefix := entries[..n];
      var t := TablesOf(prefix).value;
      OverloadsInOrder(prefix, c, name);
      var before := Overloads(t.Get(c), name);
      var after := Overloads(TablesOf(entries).value.Get(c), name);
      if CategoryOf(e) == c && e.name == name {
        var spec := Build(e).value;
        assert TablesOf(entries).value == AddTo(t, c, name, spec);
        assert after == before + [spec];
        assert Matching(entries, c, name) == Matching(prefix, c, name) + [e];
      } else {
        if CategoryOf(e) != Skip {
          assert TablesOf(entries).value == AddTo(t, CategoryOf(e), e.name, Build(e).value);
        }
        assert after == before;
        assert Matching(entries, c, name) == Matching(prefix, c, name);
      }
    }
  }

  /** The entries that are not constructors. */
  function NonConstructors(entries: seq<RawEntry>): (r: seq<RawEntry>)
    ensures forall e :: e in r <==> e in entries && CategoryOf(e) != Skip
  {
    if entries == [] then []
    else
      var n := |entries| - 1;
      var e := entries[n];
      assert entries == entries[..n] + [e];
      NonConstructors(entries[..n]) + (if CategoryOf(e) != Skip then [e] else [])
  }

  /** Constructor entries are never handed to a builder: dropping them changes nothing. */
  lemma {:induction false} ConstructorsIgnored(entries: seq<RawEntry>)
    ensures TablesOf(NonConstructors(entries)) == TablesOf(entries)
  {
    if entries != [] {
      var n := |entries| - 1;
      var e := entries[n];
      var kept := NonConstructors(entries[..n]);
      ConstructorsIgnored(entries[..n]);
      if CategoryOf(e) == Skip {
        assert NonConstructors(entries) == kept;
      } else {
        var r := kept + [e];
        assert NonConstructors(entries) == r;
        assert r[..|r| - 1] == kept && r[|r| - 1] == e;
      }
    }
  }

  // ---------------------------------------------------------------- examples

  /** A tuple of an address and an unnamed integer, as in the parser's tests. */
  lemma TupleTypeExample()
    ensures ParseTupleType(Present([RawParam(Some("the_address"), "address", Absent), RawParam(None, "uint8", Absent)]))
      == Success(Tuple(ExampleFields()))
  {
    var cs := [RawParam(Some("the_address"), "address", Absent), RawParam(None, "uint8", Absent)];
    assert Text.NatToString(1) == "1";
    assert ParseFieldName(None, 1) == "field_1";
    assert IsIntegerName("uint8") by { assert "uint8"[..4] == "uint" && IsDigits("uint8"[4..]); }
    assert cs[1..][1..] == [];
    assert ResolveType(true, false, "uint8", Absent) == Success(Integer);
    assert ResolveFields(true, cs[1..][1..], 2) == Success([]);
    assert ResolveFields(true, cs[1..], 1).Success?;
    var v := ResolveFields(true, cs, 0).value;
    assert v[0] == Param("the_address", Address, None);
    assert v[1] == Param("field_1", Integer, None);
    assert |v| == 2;
    assert v == [Param("the_address", Address, None), Param("field_1", Integer, None)];
  }

  /** The fields of the tuple of the parser's tests. */
  function ExampleFields(): seq<Param> {
    [Param("the_address", Address, None), Param("field_1", Integer, None)]
  }

  /** The tuple type's validation, as in the parser's tests. */
  lemma TupleValidationExample(junk: Value, address: string)
    requires !junk.Obj? && IsAddress(address)
    ensures var t := Tuple(ExampleFields());
      var good := map["the_address" := Str(address), "field_1" := Num(123)];
      && Validate(t, junk) == Invalid("Must be an object")
      && Validate(t, Obj(good["the_address" := Str("abc")])) == Invalid("Must be a valid address")
      && Validate(t, Obj(good)) == Valid
  {
    var fs := ExampleFields();
    var good := map["the_address" := Str(address), "field_1" := Num(123)];
    var bad := good["the_address" := Str("abc")];
    assert FieldValue(fs[0], bad) == Str("abc");
    assert Validate(Address, Str("abc")) == Invalid("Must be a valid address");
    assert FieldValue(fs[0], good) == Str(address) && FieldValue(fs[1], good) == Num(123);
    assert Validate(Address, Str(address)) == Valid && Validate(Integer, Num(123)) == Valid;
  }

  /** The tuple type's conversion, as in the parser's tests: a good record goes through unchanged both ways. */
  lemma TupleConversionExample(address: string)
    ensures var t := Tuple(ExampleFields());
      var good := map["the_address" := Str(address), "field_1" := Num(123)];
      && Convert(In, t, Obj(good)) == Obj(good)
      && Convert(Out, t, Obj(good)) == Obj(good)
  {
    var fs := ExampleFields();
    var t := Tuple(fs);
    var good := map["the_address" := Str(address), "field_1" := Num(123)];
    assert Fits(t, Obj(good)) by {
      var names := set i | 0 <= i < |fs| :: fs[i].name;
      assert fs[0].name in names && fs[1].name in names;
      assert good.Keys == names;
    }
    PassThroughIdentity(In, t, Obj(good));
    PassThroughIdentity(Out, t, Obj(good));
  }

  /** The `lastSender` constant of the parser's tests: its unnamed address output is named `lastSender`. */
  lemma LastSenderExample()
    ensures var e := RawEntry("function", "lastSender", Some([]), Some([RawParam(Some(""), "address", Absent)]),
        Some(true), Some("view"), Some(false));
      ParseConstantSpec(e) == Success(ConstantSpec("lastSender", [], [Param("lastSender", Address, None)]))
  {
    var raw := [RawParam(Some(""), "address", Absent)];
    var os := ConstantOutputs(raw, "lastSender");
    assert os[0] == RawParam(Some("lastSender"), "address", Absent);
    assert ParseType("address", Absent) == Success(Address);
    var v := ParseParams(os, "lastSender").value;
    assert v[0] == Param("lastSender", Address, None);
    assert v == [Param("lastSender", Address, None)];
    assert ParseParams([], "lastSender") == Success([]);
  }

  /** An unnamed parameter at index 0 is named `field_0`. */
  lemma UnnamedParamExample()
    ensures ParseParams([RawParam(Some(""), "address", Absent)], "lastSender") == Success([Param("field_0", Address, None)])
  {
    var raw := [RawParam(Some(""), "address", Absent)];
    assert Text.NatToString(0) == "0";
    assert ParseFieldName(raw[0].name, 0) == "field_0";
    assert raw[1..] == [];
    assert ParamsFrom(raw[1..], 1) == Success([]);
    assert ParseType("address", Absent) == Success(Address);
    var v := ParseParams(raw, "lastSender").value;
    assert v[0] == Param("field_0", Address, None);
    assert v == [Param("field_0", Address, None)];
  }

  /** The warning for that parameter names its type and its owner. */
  lemma UnnamedParamWarning()
    ensures ParamWarnings([RawParam(Some(""), "address", Absent)], "lastSender")
      == ["No name supplied for field of type \"address\" of method \"lastSender\""]
  {
    var raw := [RawParam(Some(""), "address", Absent)];
    assert raw[..0] == [];
    assert ParamWarnings(raw[..0], "lastSender") == [];
    assert WarningText("address", "lastSender") == "No name supplied for field of type \"address\" of method \"lastSender\"";
    assert ParamWarnings(raw, "lastSender") == [WarningText("address", "lastSender")] + [];
  }

  /**
   * A tuple component that is itself a tuple: resolved by type name alone its own
   * components are lost and the parse fails; resolved with them it nests.
   */
  lemma NestedTupleFinding()
    ensures var cs := [RawParam(Some("inner"), "tuple", Present([RawParam(Some("flag"), "bool", Absent)]))];
      && ParseTupleTypeAsWritten(Present(cs)).Failure?
      && ParseTupleType(Present(cs)) == Success(Tuple([Param("inner", Tuple([Param("flag", Boolean, None)]), None)]))
  {
    var inner := [RawParam(Some("flag"), "bool", Absent)];
    var cs := [RawParam(Some("inner"), "tuple", Present(inner))];
    assert cs[1..] == [] && inner[1..] == [];
    assert ResolveType(false, false, "tuple", Present(inner)).Failure?;
    assert ResolveFields(false, cs, 0).Failure?;
    assert ResolveType(true, false, "bool", Absent) == Success(Boolean);
    assert ResolveFields(true, inner[1..], 1) == Success([]);
    assert ParseFieldName(inner[0].name, 0) == "flag";
    assert ResolveType(true, false, inner[0].typeName, inner[0].components) == Success(Boolean);
    var v := ResolveFields(true, inner, 0).value;
    assert v[0] == Param("flag", Boolean, None);
    assert |v| == 1;
    assert v == [Param("flag", Boolean, None)];
    assert ResolveFields(true, inner, 0) == Success([Param("flag", Boolean, None)]);
    assert ResolveFields(true, cs[1..], 1) == Success([]);
    assert ResolveType(true, false, "tuple", Present(inner)) == Success(Tuple([Param("flag", Boolean, None)]));
    var w := ResolveFields(true, cs, 0).value;
    assert w[0] == Param("inner", Tuple([Param("flag", Boolean, None)]), None);
    assert |w| == 1;
    assert w == [Param("inner", Tuple([Param("flag", Boolean, None)]), None)];
  }

  /** Resolved with their components, nested tuples keep every level: each field's type is the resolution of its component. */
  lemma {:induction false} TupleFieldsResolved(cs: seq<RawParam>)
    requires ParseTupleType(Present(cs)).Success?
    ensures var t := ParseTupleType(Present(cs)).value;
      t.Tuple? && |t.fields| == |cs| &&
      forall k :: 0 <= k < |cs| ==>
        t.fields[k].name == ParseFieldName(cs[k].name, k) &&
        ParseType(cs[k].typeName, cs[k].components) == Success(t.fields[k].typ)
  {
    var fields := ResolveFields(true, cs, 0);
    assert fields.Success?;
    forall k | 0 <= k < |cs|
      ensures ParseType(cs[k].typeName, cs[k].components) == ResolveType(true, false, cs[k].typeName, cs[k].components)
    {
      assert ResolveTuple(true, true, cs[k].components) == ResolveTuple(true, false, cs[k].components);
    }
  }
}
