/**
 * The method factory: turns a method spec into a callable. Calling it splits an
 * optional trailing options object off the arguments, refuses a value for a
 * non-payable method, and builds a transaction from the function call, the
 * callable's hook manager and the options. Each signature of the spec also gets
 * a callable of its own, restricted to that signature.
 */
module MethodFactory {
  import opened Wrappers
  import opened JsValues
  import opened ParamTypes
  import opened Errors

  /** The option names that mark an argument as transaction options. */
  const OptionNames: seq<string> := ["value", "gas", "gasLimit"]

  /** `BigNumber.isBN(x) || typeof x === 'number'`. */
  predicate IsAmount(v: Value) {
    v.Num? || v.BigNum?
  }

  /** An options object: a plain object holding an amount under one of the option names. */
  predicate IsOptions(v: Value) {
    v.Obj? && exists k :: k in OptionNames && IsAmount(Get(v.props, k))
  }

  /**
   * `isOptions` as written: `typeof null` is `'object'`, so `null` passes the first test and
   * reading an option from it throws.
   */
  function IsOptionsAsWritten(v: Value): (r: Result<bool, Error>)
    ensures r.Failure? <==> v.Null?
    ensures r.Success? ==> r.value == IsOptions(v)
  {
    if v.Null? then Failure(TypeError("Cannot read properties of null"))
    else if IsObjectType(v) then
      Success(exists k :: k in OptionNames && IsAmount(if v.Obj? then Get(v.props, k) else Undefined))
    else Success(false)
  }

  /** The arguments a call builds its function call from, and the options it sends. */
  datatype Split = Split(args: seq<Value>, options: map<string, Value>)

  /** `inputParams[inputParams.length - 1]`: undefined for no arguments. */
  function Last(inputParams: seq<Value>): Value {
    if inputParams == [] then Undefined else inputParams[|inputParams| - 1]
  }

  /**
   * The options split: the last argument is popped as the options when it is an options
   * object; otherwise every argument stays and the options are empty.
   */
  function SplitOptions(inputParams: seq<Value>): (r: Split)
    ensures IsOptions(Last(inputParams)) ==> r.args + [Obj(r.options)] == inputParams
    ensures !IsOptions(Last(inputParams)) ==> r.args == inputParams && r.options == map[]
    ensures r.options != map[] ==> IsOptions(Obj(r.options))
  {
    var last := Last(inputParams);
    if IsOptions(last) then Split(inputParams[..|inputParams| - 1], last.props)
    else Split(inputParams, map[])
  }

  /** The split as written: a trailing `null` makes it throw. */
  function SplitOptionsAsWritten(inputParams: seq<Value>): (r: Result<Split, Error>)
    ensures r.Failure? <==> Last(inputParams).Null?
  {
    var last := Last(inputParams);
    match IsOptionsAsWritten(last)
    case Failure(e) => Failure(e)
    case Success(isOptions) =>
      if isOptions then Success(Split(inputParams[..|inputParams| - 1], last.props))
      else Success(Split(inputParams, map[]))
  }

  /** Away from a trailing `null`, the split as written is the intended one. */
  lemma AsWrittenAgrees(inputParams: seq<Value>)
    requires !Last(inputParams).Null?
    ensures SplitOptionsAsWritten(inputParams) == Success(SplitOptions(inputParams))
  {
    var last := Last(inputParams);
    assert IsOptionsAsWritten(last) == Success(IsOptions(last));
  }

  /** A trailing `null` argument: the split as written throws a type error. */
  lemma NullLastArgument(args: seq<Value>)
    ensures SplitOptionsAsWritten(args + [Null]) == Failure(TypeError("Cannot read properties of null"))
  {
    assert Last(args + [Null]) == Null;
  }

  /** A trailing `null` argument: the intended split keeps it as an argument and sends no options. */
  lemma NullStaysArgument(args: seq<Value>)
    ensures SplitOptions(args + [Null]) == Split(args + [Null], map[])
  {
    assert Last(args + [Null]) == Null;
  }

  /** A hook manager; its hooks are not part of this model, only its identity. */
  class HookManager {
    constructor()
    {
    }
  }

  /** `getFunctionCall(functionParams, ...args)`, recorded by its arguments. */
  datatype FunctionCall = FunctionCall(functionParams: seq<Overload>, args: seq<Value>)

  /** The arguments a transaction is created with: `{functionCall, hooks, ...options}`. */
  datatype Transaction = Transaction(functionCall: FunctionCall, hooks: HookManager, options: map<string, Value>)

  /** A callable `getMethodFn` returns: its params, payability, own hook manager and per-signature callables. */
  class MethodFn {
    const functionParams: seq<Overload>
    const isPayable: bool
    const hooks: HookManager
    var bySignature: map<string, MethodFn>

    /** `getMethodFn`: a callable with a hook manager of its own. */
    constructor(functionParams: seq<Overload>, isPayable: bool)
      ensures this.functionParams == functionParams && this.isPayable == isPayable
      ensures fresh(hooks) && bySignature == map[]
    {
      this.functionParams := functionParams;
      this.isPayable := isPayable;
      hooks := new HookManager();
      bySignature := map[];
    }

    /**
     * Calling the callable: options split off, a truthy `value` refused unless the method
     * is payable, and otherwise a transaction of the call, the hooks and the options.
     */
    function Call(inputParams: seq<Value>): (r: Result<Transaction, Error>)
      ensures r.Failure? <==> !isPayable && Truthy(Get(SplitOptions(inputParams).options, "value"))
      ensures r.Failure? ==> r.error == NonPayable
      ensures r.Success? ==>
        && r.value.hooks == hooks
        && r.value.functionCall.functionParams == functionParams
        && Split(r.value.functionCall.args, r.value.options) == SplitOptions(inputParams)
    {
      var split := SplitOptions(inputParams);
      if !isPayable && Truthy(Get(split.options, "value")) then Failure(NonPayable)
      else Success(Transaction(FunctionCall(functionParams, split.args), hooks, split.options))
    }

    /** A big-number value, zero included, is refused by a non-payable method. */
    lemma NonPayableRefusesBigNumber(args: seq<Value>, n: int)
      requires !isPayable
      ensures Call(args + [Obj(map["value" := BigNum(n)])]) == Failure(NonPayable)
    {
      var options := Obj(map["value" := BigNum(n)]);
      assert "value" in OptionNames && IsAmount(Get(options.props, "value"));
      assert Last(args + [options]) == options;
    }

    /** A plain zero value is falsy: the call goes through with the options split off. */
    lemma ZeroNumberAccepted(args: seq<Value>)
      ensures var options := map["value" := Num(0)];
        Call(args + [Obj(options)]) == Success(Transaction(FunctionCall(functionParams, args), hooks, options))
    {
      var options := map["value" := Num(0)];
      assert "value" in OptionNames && IsAmount(Get(options, "value"));
      assert Last(args + [Obj(options)]) == Obj(options);
      assert (args + [Obj(options)])[..|args|] == args;
    }

    /** A trailing object without an amount under an option name is an argument, not options. */
    lemma PlainRecordStaysArgument(args: seq<Value>, record: map<string, Value>)
      requires forall k :: k in OptionNames ==> !IsAmount(Get(record, k))
      ensures Call(args + [Obj(record)]) == Success(Transaction(FunctionCall(functionParams, args + [Obj(record)]), hooks, map[]))
    {
      assert Last(args + [Obj(record)]) == Obj(record);
    }

    /** A payable method never refuses a call. */
    lemma PayableAcceptsAll(inputParams: seq<Value>)
      requires isPayable
      ensures Call(inputParams).Success?
    {
    }
  }

  /** A method spec: `{name, input?, isPayable?}`, an absent `isPayable` read as false. */
  datatype MethodSpec = MethodSpec(name: string, input: Option<seq<Overload>>, isPayable: bool)

  /** The signatures of the spec's input, `{}` when it has none. */
  function Signatures(spec: MethodSpec): seq<Overload> {
    spec.input.GetOr([])
  }

  /** The params of the function: the input, or the method's name taken as its signature with no params. */
  function DefaultParams(spec: MethodSpec): (ps: seq<Overload>)
    ensures |ps| >= 1
    ensures Signatures(spec) == [] ==> ps == [Overload(spec.name, [])]
    ensures Signatures(spec) != [] ==> ps == Signatures(spec)
  {
    if Signatures(spec) == [] then [Overload(spec.name, [])] else Signatures(spec)
  }

  /** `functionParams[signature]`: the params under a signature, as a property lookup finds them. */
  function ParamsOf(ps: seq<Overload>, signature: string): seq<Param> {
    if ps == [] then []
    else if ps[0].signature == signature then ps[0].params
    else ParamsOf(ps[1..], signature)
  }

  /** The params found under a signature are those of the first entry with that signature. */
  lemma {:induction false} ParamsOfFirst(ps: seq<Overload>, signature: string, i: nat)
    requires i < |ps| && ps[i].signature == signature
    requires forall j :: 0 <= j < i ==> ps[j].signature != signature
    ensures ParamsOf(ps, signature) == ps[i].params
  {
    if i > 0 {
      ParamsOfFirst(ps[1..], signature, i - 1);
    }
  }

  /** The signatures named by a list of overloads. */
  function SignatureNames(os: seq<Overload>): set<string> {
    if os == [] then {} else SignatureNames(os[..|os| - 1]) + {os[|os| - 1].signature}
  }

  /** A signature is named exactly when some overload carries it. */
  lemma {:induction false} SignatureNamesMembers(os: seq<Overload>, s: string)
    ensures s in SignatureNames(os) <==> exists o :: o in os && o.signature == s
  {
    if os != [] {
      var n := |os| - 1;
      SignatureNamesMembers(os[..n], s);
      assert forall o :: o in os <==> o in os[..n] || o == os[n];
    }
  }

  /**
   * `methodFactory`: the callable for the whole method, plus, under each signature, a
   * callable for that signature alone; every callable has a hook manager of its own.
   */
  method MakeMethod(spec: MethodSpec) returns (fn: MethodFn)
    ensures fresh(fn) && fresh(fn.hooks)
    ensures fn.functionParams == DefaultParams(spec) && fn.isPayable == spec.isPayable
    ensures fn.bySignature.Keys == SignatureNames(Signatures(spec))
    ensures forall s :: s in fn.bySignature ==>
      var sub := fn.bySignature[s];
      && fresh(sub) && fresh(sub.hooks) && sub != fn && sub.hooks != fn.hooks
      && sub.functionParams == [Overload(s, ParamsOf(fn.functionParams, s))]
      && sub.isPayable == spec.isPayable
      && sub.bySignature == map[]
    ensures forall s, t :: s in fn.bySignature && t in fn.bySignature && s != t ==>
      fn.bySignature[s] != fn.bySignature[t] && fn.bySignature[s].hooks != fn.bySignature[t].hooks
  {
    fn := new MethodFn(DefaultParams(spec), spec.isPayable);
    var signatures := Signatures(spec);
    var bySignature: map<string, MethodFn> := map[];
    var i := 0;
    while i < |signatures|
      invariant 0 <= i <= |signatures|
      invariant bySignature.Keys == SignatureNames(signatures[..i])
      invariant forall s :: s in bySignature ==>
        var sub := bySignature[s];
        && fresh(sub) && fresh(sub.hooks) && sub != fn && sub.hooks != fn.hooks
        && sub.functionParams == [Overload(s, ParamsOf(fn.functionParams, s))]
        && sub.isPayable == spec.isPayable
        && sub.bySignature == map[]
      invariant forall s, t :: s in bySignature && t in bySignature && s != t ==>
        bySignature[s].hooks != bySignature[t].hooks
    {
      var signature := signatures[i].signature;
      var sub := new MethodFn([Overload(signature, ParamsOf(fn.functionParams, signature))], spec.isPayable);
      bySignature := bySignature[signature := sub];
      assert signatures[..i + 1][..i] == signatures[..i] && signatures[..i + 1][i] == signatures[i];
      i := i + 1;
    }
    assert signatures[..i] == signatures;
    fn.bySignature := bySignature;
  }
}
