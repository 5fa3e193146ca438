# Lighthouse contract-interface core, modelled in Dafny

Lighthouse turns a smart contract's JSON ABI into a typed JavaScript interface. This
project models its core:

- **ABI parser** (`abi_parser.dfy`). It scans the ABI entries in order. Each entry that
  is not a constructor goes to a builder: events to `parseEventSpec`, view/pure/constant
  functions to `parseConstantSpec`, all others to `parseMethodSpec`. The built spec is
  appended to the list kept under the entry's name in the events, constants or methods
  table. Type names resolve to address, bool, string, (u)int<bits> or tuple. An unnamed
  parameter is called `field_<index>` and produces a warning.
- **Parameter types** (`param_types.dfy`). Each type validates values and converts
  them in both directions. Strings are hex-encoded on input (`hex.dfy`: UTF-8, then
  lower-case hex after `0x`). A tuple works field by field.
- **Parameter codec** (`param_conversion.dfy`):
  - `convertInput` reads either one named record or positional arguments. It fills in
    defaults and validates every field in order. It then converts each value, or fails
    naming the first rejected field.
  - `convertOutput` names the positional wire values after the spec's fields.
- **Event** (`event.dfy`). A class holding its subscriptions (`emitters`) and its
  registry of wrapped handlers.
  - `addListener` is idempotent. On first use it opens one subscription per overload
    signature, then attaches the handler's wrapper to the `data` and `error` channels
    of each.
  - `removeListener` detaches the wrapper and forgets it.
  - The wrapper passes errors through. It matches a log's signature hash against the
    known signatures (first match wins) and decodes the log's values with the codec.
- **Method factory** (`method_factory.dfy`). A callable splits a trailing options
  object off its arguments. It refuses a truthy `value` for a non-payable method, and
  otherwise records the transaction it would create. Each input signature also gets a
  callable of its own, and every callable owns a separate hook manager.
- **Interface override merge** (`contract_interface.dfy`). The parsed interface and
  the user's overrides are merged per category, per entry name and per field. A field
  the override sets replaces the parsed one wholesale.

Supporting modules:

- `wrappers.dfy`: `Option` and `Result`.
- `js_values.dfy`: JavaScript values, with truthiness and `typeof` as the core uses them.
- `errors.dfy`: the error kinds and their messages.
- `text.dfy`: decimal rendering of indices.

The sources of the ABI parser, the parameter types and the codec are not part of this
model. Their behaviour is taken from their test suites, which the source column cites.

The model follows the code in these places, where a reader might expect otherwise:

- A log whose hash matches no signature makes the wrapper throw
  (`Event/index.js:46-47`). The error does not reach the handler.
- Every `getMethodFn` call creates its own `HookManager` (`methodFactory/index.js:28`).
  So the bare callable and each per-signature callable have distinct hook managers,
  not one shared manager.
- `_findSignatureByHash` treats a matched empty signature as not found, because it
  tests the result for truthiness.

## Model

| member | source | states |
|---|---|---|
| AbiParser.ParseAbi | src/parsers/ABIParser/__tests__/ABIParser.test.js:34-133 | the in-place scan over the entries yields exactly `TablesOf(entries)`, the specification function of the parse: the tables, or the first failing builder's error |
| AbiParser.Parse | src/parsers/ABIParser/__tests__/ABIParser.test.js:34-133 | the parsed contract keeps the given address and holds the tables; it fails exactly when building the tables fails |
| AbiParser.CategoryOf | src/parsers/ABIParser/__tests__/ABIParser.test.js:34-133 | constructors are skipped, events go to the events table, view/pure/constant functions to the constants table, and every other entry to the methods table |
| AbiParser.TableNamesFromEntries | src/parsers/ABIParser/__tests__/ABIParser.test.js:56-132 | every name in a table is the name of some entry of that table's category; no name appears from nowhere |
| AbiParser.TablesFailureSticks | src/parsers/ABIParser/__tests__/ABIParser.test.js:34-133 | once a prefix of the entries fails, the whole parse fails with that error; no partial interface is returned |
| AbiParser.TablesSucceedIff | src/parsers/ABIParser/__tests__/ABIParser.test.js:34-133 | parsing succeeds exactly when every entry that is not a constructor builds |
| AbiParser.OverloadsInOrder | src/parsers/ABIParser/__tests__/ABIParser.test.js:56-132 | the list under a name in a table holds the built spec of every entry of that category and name, in declaration order; none overwrites another |
| AbiParser.ConstructorsIgnored | src/parsers/ABIParser/__tests__/ABIParser.test.js:45-54 | constructor entries are never handed to a builder: dropping them leaves the result unchanged |
| AbiParser.NonConstructors | src/parsers/ABIParser/__tests__/ABIParser.test.js:45-54 | an entry is kept exactly when it is in the input and is not a constructor |
| AbiParser.Matching | src/parsers/ABIParser/__tests__/ABIParser.test.js:56-132 | every selected entry is in the input and has the given category and name |
| AbiParser.MatchingComplete | src/parsers/ABIParser/__tests__/ABIParser.test.js:56-132 | the selection holds every entry of the given category and name, as many times as the input does, and nothing else |
| AbiParser.Append | src/parsers/ABIParser/__tests__/ABIParser.test.js:56-132 | appending adds the spec at the end of its name's list and leaves every other name's list unchanged |
| AbiParser.AddTo | src/parsers/ABIParser/__tests__/ABIParser.test.js:56-132 | only the table of the entry's category changes |
| AbiParser.ParseMethodSpec | src/parsers/ABIParser/__tests__/ABIParser.test.js:136-187 | a method spec named after the entry, with inputs and outputs parsed and payability taken from the entry; it succeeds exactly when both lists parse; missing inputs and outputs give empty lists |
| AbiParser.ParseConstantSpec | src/parsers/ABIParser/__tests__/ABIParser.test.js:189-224 | a constant spec with inputs parsed and outputs parsed after naming each unnamed output after the constant, and no payability; it succeeds exactly when both parse; missing lists give empty ones |
| AbiParser.ConstantOutputs | src/parsers/ABIParser/__tests__/ABIParser.test.js:193-210 | each output keeps its type and components; an unnamed output takes the constant's name and a named one keeps its own |
| AbiParser.ConstantOutputsNamed | src/parsers/ABIParser/__tests__/ABIParser.test.js:193-210 | for a named constant, parsing its outputs raises no warning |
| AbiParser.LastSenderExample | src/parsers/ABIParser/__tests__/ABIParser.test.js:193-210 | the view function `lastSender` with one unnamed address output gives a constant whose output is the address param named `lastSender` |
| AbiParser.ParseEventSpec | src/parsers/ABIParser/__tests__/ABIParser.test.js:226-264 | an event spec whose output is the entry's parsed inputs; it succeeds exactly when they parse; missing inputs give an empty output |
| AbiParser.ParseTypeExamples | src/parsers/ABIParser/__tests__/ABIParser.test.js:278-286 | `address` resolves to the address type, `uint8` to the integer type, and `an invalid type` is refused |
| AbiParser.ParseTypeCases | src/parsers/ABIParser/__tests__/ABIParser.test.js:266-287 | only address, bool, string, (u)int<bits> and tuple resolve; any other name fails with `Type "<name>" could not be matched`; the result is a tuple exactly when the name is `tuple` |
| AbiParser.ParseTupleTypeShape | src/parsers/ABIParser/__tests__/ABIParser.test.js:289-319 | a tuple without components fails as a malformed spec; a resolved tuple has one field per component, named by `parseFieldName` from the component's name and position |
| AbiParser.UnknownTypeRejected | src/parsers/ABIParser/__tests__/ABIParser.test.js:284-286 | any name outside the known set fails with `Type "<name>" could not be matched` |
| AbiParser.ResolveFields | src/parsers/ABIParser/__tests__/ABIParser.test.js:289-319 | a tuple has one field per component: its name is the component's (or `field_<index>`), its type is the component's resolved type, and it has no default |
| AbiParser.TupleTypeExample | src/parsers/ABIParser/__tests__/ABIParser.test.js:289-317 | the tuple of a named address and an unnamed uint8 has fields `the_address` (address) and `field_1` (integer) |
| AbiParser.TupleValidationExample | src/parsers/ABIParser/__tests__/ABIParser.test.js:321-327 | that tuple refuses a non-object with `Must be an object` and a record with a bad address with `Must be a valid address`, and accepts a good record |
| AbiParser.TupleConversionExample | src/parsers/ABIParser/__tests__/ABIParser.test.js:328-335 | that tuple converts a good record to itself in both directions |
| AbiParser.TupleFieldsResolved | src/parsers/ABIParser/__tests__/ABIParser.test.js:386-389 | resolved with their components, tuple fields keep every nested level: each field's type is what parsing its component gives |
| AbiParser.NestedTupleFinding | src/parsers/ABIParser/__tests__/ABIParser.test.js:318-319 | resolving tuple fields by type name alone fails on a nested tuple, while resolving them with their components nests it |
| AbiParser.ParamsFromSpec | src/parsers/ABIParser/__tests__/ABIParser.test.js:372-390 | parsing from any index resolves every parameter in order, naming it by its position; on failure the error is that of the first parameter whose type does not resolve, every earlier one having resolved |
| AbiParser.ParseParams | src/parsers/ABIParser/__tests__/ABIParser.test.js:372-390 | one param per raw parameter, in order, each named by `parseFieldName(name, index)` and typed by its type and components; it succeeds exactly when every type resolves, and a failure is the error of the first parameter whose type does not resolve, every earlier one having resolved |
| AbiParser.ParseFieldName | src/parsers/ABIParser/__tests__/ABIParser.test.js:310-317 | a non-empty name is kept; a missing or empty one becomes `field_<index>`; the result is never empty |
| AbiParser.UnnamedPositions | src/parsers/ABIParser/__tests__/ABIParser.test.js:372-393 | the positions of exactly the unnamed parameters, in increasing order |
| AbiParser.ParamWarnings | src/parsers/ABIParser/__tests__/ABIParser.test.js:391-393 | one warning per unnamed parameter, in parameter order: the k-th warning names the k-th unnamed parameter's type and the owner |
| AbiParser.NoWarningsIffNamed | src/parsers/ABIParser/__tests__/ABIParser.test.js:391-393 | there are no warnings exactly when every parameter is named |
| AbiParser.UnnamedParamExample | src/parsers/ABIParser/__tests__/ABIParser.test.js:372-390 | an unnamed address output of `lastSender` becomes `field_0` |
| AbiParser.UnnamedParamWarning | src/parsers/ABIParser/__tests__/ABIParser.test.js:391-393 | that parameter's warning is the text the test expects |
| AbiParser.GeneratedNamesDistinct | src/parsers/ABIParser/__tests__/ABIParser.test.js:310-317 | names generated for different indices never collide |
| ParamTypes.Validate | src/parsers/ABIParser/__tests__/ABIParser.test.js:321-327 | an address must be `0x` plus forty hex digits, an integer a number or big number, a boolean a boolean, a string a string, and a tuple an object whose fields all validate; a tuple refuses a non-object with `Must be an object` |
| ParamTypes.Convert | src/parsers/ABIParser/__tests__/ABIParser.test.js:328-335 | address, integer and boolean values pass through; a string is hex-encoded on input and passed through on output; a tuple of an object gives a record keyed by its field names |
| ParamTypes.ValidateFields | src/parsers/ABIParser/__tests__/ABIParser.test.js:321-327 | a record is valid exactly when every field validates; otherwise the reason is that of the first rejected field |
| ParamTypes.ConvertFields | src/parsers/ABIParser/__tests__/ABIParser.test.js:328-335 | the converted record has exactly one property per field name |
| ParamTypes.ConvertFieldsAt | src/parsers/ABIParser/__tests__/ABIParser.test.js:363-369 | each field's property holds that field's own conversion of its value, including a custom type's `convertOutput` |
| ParamTypes.PassThroughIdentity | src/parsers/ABIParser/__tests__/ABIParser.test.js:363-365 | a type that defines no conversion hands any value of its shape through unchanged |
| ParamConversion.ArgsOf | src/modules/paramConversion/__tests__/paramConversion.js:23-65 | the arguments are read as a named record exactly when there is one argument and it is an object |
| ParamConversion.RawValues | src/modules/paramConversion/__tests__/paramConversion.js:68-100 | each field's raw value is the supplied one, or its default when nothing was supplied |
| ParamConversion.FirstFailure | src/modules/paramConversion/__tests__/paramConversion.js:102-160 | there is no failure exactly when every field accepts its value; otherwise the failure names the first field that rejects its value, with that field's reason |
| ParamConversion.ConvertInput | src/modules/paramConversion/__tests__/paramConversion.js:15-161 | an empty spec gives `[]`; it succeeds exactly when every field accepts its raw value, giving each converted value in spec order; it fails naming the first rejected field |
| ParamConversion.NamedAndPositionalAgree | src/modules/paramConversion/__tests__/paramConversion.js:23-65 | a named record and a positional list holding the same values give the same result |
| ParamConversion.DefaultIsValidatedAndUsed | src/modules/paramConversion/__tests__/paramConversion.js:68-100 | a default fills a missing field and is validated and converted like a supplied value |
| ParamConversion.DefaultExample | src/modules/paramConversion/__tests__/paramConversion.js:68-100 | `"james"` plus a defaulted id give `["0x6a616d6573", 5]` in both argument forms |
| ParamConversion.MissingBooleanExample | src/modules/paramConversion/__tests__/paramConversion.js:102-160 | a missing flag in the named form, and a non-boolean flag in either form, fails with the validation error naming `isTrue` |
| ParamConversion.MissingBooleanFor | src/modules/paramConversion/__tests__/paramConversion.js:102-160 | for any arguments supplying `"james"` and a value for `isTrue` that is not a boolean, whether missing or wrong, the call fails with the validation error naming `isTrue` |
| ParamConversion.ConvertOutput | src/modules/paramConversion/__tests__/paramConversion.js:163-202 | the record's keys are the names of the fields that have a wire value |
| ParamConversion.ConvertOutputAt | src/modules/paramConversion/__tests__/paramConversion.js:173-202 | the i-th wire value, converted by the i-th field's type, appears under the i-th field's name |
| ParamConversion.ConvertOutputIgnoresExtra | src/modules/paramConversion/__tests__/paramConversion.js:163-171 | wire values beyond the spec's length are ignored |
| ParamConversion.RoundTrip | src/modules/paramConversion/__tests__/paramConversion.js:173-202 | for types without conversions, decoding the encoded wire list gives back each field's supplied (or defaulted) value under its name |
| Hex.StringToHex | src/modules/paramConversion/__tests__/paramConversion.js:68-85 | the encoding starts with `0x` and has at least two hex digits per character |
| Hex.StringHexRoundTrip | src/modules/paramConversion/__tests__/paramConversion.js:68-85 | decoding the hex input encoding of a string gives the string back |
| Hex.StringToHexJames | src/modules/paramConversion/__tests__/paramConversion.js:84 | `"james"` encodes to `0x6a616d6573` |
| Events.Event.constructor | src/modules/Event/index.js:36-41 | a new event has no emitters and no registered handlers, and is valid |
| Events.FirstMatch | src/modules/Event/index.js:43-45 | the index of the first signature that hashes to the hash, or none exactly when no signature does |
| Events.Event.FindSignatureByHash | src/modules/Event/index.js:43-49 | it succeeds exactly when the first signature hashing to the hash exists and is non-empty, and then returns that overload; otherwise it fails with `Event signature "<hash>" could not be matched` |
| Events.Event.SignatureRoundTrip | src/modules/Event/index.js:43-49 | with distinct hashes, every overload with a non-empty signature is found by its own hash |
| Events.Event.Invoke | src/modules/Event/index.js:51-65 | an error reaches the handler as is; a log reaches the handler as exactly the typed event made of the log, the matched overload's signature and the overload's params converted from the log's return values; the call throws the lookup's error, without calling the handler, exactly when the lookup fails |
| Events.Event.CreateEmitters | src/modules/Event/index.js:67-71 | the emitters become new subscriptions, one per overload signature in key order, with no listeners; the registry is unchanged |
| Events.Event.AddToEmitters | src/modules/Event/index.js:73-78 | every emitter gets the wrapper appended on both its `data` and `error` channels |
| Events.Event.RemoveFromEmitters | src/modules/Event/index.js:80-85 | every emitter loses every occurrence of the wrapper on both channels |
| Events.Emitter.On | src/modules/Event/index.js:75-76 | the listener is appended to the named channel only |
| Events.Emitter.RemoveListener | src/modules/Event/index.js:82-83 | the listener is removed from the named channel only |
| Events.Event.AddListener | src/modules/Event/index.js:87-98 | the event stays valid; a registered handler changes nothing; a new one is registered with its wrapper, appended to every emitter's listeners, and emitters exist once the event has overloads; existing emitters are kept |
| Events.Event.Attach | src/modules/Event/index.js:90-97 | a new handler is registered last, and every emitter's listeners are the wrappers of the registered handlers |
| Events.Event.RemoveListener | src/modules/Event/index.js:100-107 | the event stays valid; the handler is no longer registered, and its wrapper leaves every emitter; the emitters stay; an unregistered handler changes nothing |
| Events.AddThenRemove | src/modules/Event/index.js:87-107 | on an event, adding a new handler and then removing it restores the registry and leaves every subscription's listeners those of the registered handlers |
| Events.ListenersWithout | src/modules/Event/index.js:100-107 | removing a handler's wrapper from the listeners equals the listeners of the handlers without it |
| Events.Without | src/modules/Event/index.js:82-83 | removal keeps exactly the other elements, and leaves a sequence without the element unchanged |
| MethodFactory.SplitOptions | src/modules/methodFactory/index.js:30-32 | a trailing options object (`isOptions`: a non-null object with an amount under `value`, `gas` or `gasLimit`) is popped into the options; otherwise all arguments stay and the options are empty |
| MethodFactory.IsOptionsAsWritten | src/modules/methodFactory/index.js:13-21 | `isOptions` throws exactly on `null`, and otherwise agrees with the intended predicate |
| MethodFactory.SplitOptionsAsWritten | src/modules/methodFactory/index.js:13-32 | the split as written fails exactly when the last argument is `null` |
| MethodFactory.AsWrittenAgrees | src/modules/methodFactory/index.js:13-32 | away from a trailing `null`, the split as written is the intended split |
| MethodFactory.NullLastArgument | src/modules/methodFactory/index.js:13-21 | a trailing `null` makes the split as written throw a type error |
| MethodFactory.NullStaysArgument | src/modules/methodFactory/index.js:13-21 | under the intended split a trailing `null` stays an argument and no options are sent |
| MethodFactory.MethodFn.constructor | src/modules/methodFactory/index.js:23-28 | a callable has the given params and payability, a new hook manager and no per-signature callables |
| MethodFactory.MethodFn.Call | src/modules/methodFactory/index.js:29-42 | a call fails exactly when the method is not payable and the options' `value` is truthy, with the non-payable error; otherwise its transaction carries the callable's hooks, its params and the split arguments and options |
| MethodFactory.MethodFn.NonPayableRefusesBigNumber | src/modules/methodFactory/index.js:33-34 | a non-payable method refuses a big-number value, even zero |
| MethodFactory.MethodFn.ZeroNumberAccepted | src/modules/methodFactory/index.js:30-41 | a plain zero value passes, and the options are split off the arguments |
| MethodFactory.MethodFn.PlainRecordStaysArgument | src/modules/methodFactory/index.js:30-36 | an object with no amount under `value`, `gas` or `gasLimit` is passed as an argument |
| MethodFactory.MethodFn.PayableAcceptsAll | src/modules/methodFactory/index.js:33-34 | a payable method never refuses a call |
| MethodFactory.DefaultParams | src/modules/methodFactory/index.js:53-60 | without input signatures the params are the method's name with no params; otherwise they are the input; never empty |
| MethodFactory.ParamsOfFirst | src/modules/methodFactory/index.js:69 | the params under a signature are those of the first entry with that signature |
| MethodFactory.SignatureNamesMembers | src/modules/methodFactory/index.js:66-72 | a signature gets its own callable exactly when some input entry carries it |
| MethodFactory.MakeMethod | src/modules/methodFactory/index.js:51-75 | a new callable with the default params and the spec's payability; one new callable per input signature, holding only that signature's params; every callable has a hook manager of its own |
| ContractInterface.MergeFields | src/Lighthouse/__tests__/Lighthouse.test.js:358-379 | the merged record has the fields of both sides; each field the override sets comes from the override, the others from the parsed spec |
| ContractInterface.MergeCategory | src/Lighthouse/__tests__/Lighthouse.test.js:358-379 | every name of either side is present, its records merged field by field |
| ContractInterface.Merge | src/Lighthouse/__tests__/Lighthouse.test.js:358-380 | in each of constants, events and methods, the names are those of either side and each entry's fields those of either side; every field the override sets takes the override's value, and every other parsed field keeps its parsed value |
| ContractInterface.Overrides | src/Lighthouse/__tests__/Lighthouse.test.js:173-177 | each override category is as given, or empty when not given |
| ContractInterface.FieldWinner | src/Lighthouse/__tests__/Lighthouse.test.js:359-379 | for one field of one entry, the override wins wholesale when it sets the field; otherwise the parsed value stays; a field neither sets is absent |
| ContractInterface.NoOverridesIsIdentity | src/Lighthouse/__tests__/Lighthouse.test.js:358-380 | with no overrides the interface is the parsed one |
| ContractInterface.MergeIdempotent | src/Lighthouse/__tests__/Lighthouse.test.js:358-380 | merging the same overrides a second time changes nothing |
| ContractInterface.GetTaskRoleExample | src/Lighthouse/__tests__/Lighthouse.test.js:368-379 | the test's constant takes `input` from the override, keeps `convertInput` and adds `convertOutput` |

## Left out

- Numbers: JavaScript numbers are modelled as integers, and BN values as tagged integers. Floating point is not modelled.
- Source files: the ABI parser, parameter types and codec sources (`ABIParser`, `paramTypes`, `paramConversion`) are not part of this model. Their behaviour is modelled from their tests.
- Unasserted rules: the following are the model's choices, since the parser and type sources are not part of this model and no test fixes them:
  - the type-name rules for (u)int widths;
  - the constant and payable classification rules, including that `fallback`, `receive`, `error` and any other entry kind that is neither a constructor, an event nor a view/pure/constant function goes to the methods table;
  - the validation messages `Must be a valid integer` and `Must be a string`.
- ParamTypes.Convert: passing a string through unchanged on output is the model's choice. The codec's tests mock the string type's `convertOutput`.
- ParamTypes.Convert: passing a boolean through unchanged in both directions is the model's choice. No test covers it.
- AbiParser.ParseTupleTypeShape: failing as a malformed spec when a tuple has no components is the model's choice. The code may fail in another way, such as a `TypeError` from reading the missing list.
- Address validation: it checks only `0x` plus forty hex digits, with no checksum rule.
- Foreign code: `sha3` and `convertResultObj` are parameters of `Events.Event`. `getFunctionCall`, `Transaction` and `HookManager` are recorded by their arguments or identity.
- Events.Event.CreateEmitters: the transport adapter is not part of this model. Its `subscribe` is modelled as returning a fresh emitter per signature, distinct from every other and with no listeners. `Events.Event.Valid` relies on this: the emitters are pairwise distinct, and each one's listeners are exactly the registered handlers' wrappers. An adapter that returned a shared subscription, or one that already had listeners, is not covered.
- Hook registration: the hooks themselves are not part of this model.
- Asynchrony: `addListener` is async, and transactions complete later. Both are modelled as immediate.
- Warnings: `parseParams` warnings are modelled as a list of texts, not console output.
- MethodFactory.MethodFn.Call: the `{functionCall, hooks, ...options}` spread lets an option named `functionCall` or `hooks` replace those entries. The model keeps the options apart.
- MethodFactory.MakeMethod: a function's own properties (`name`, `length`, `hooks`) colliding with a signature are not modelled.
- Events.Event.Invoke: the wrapper is a fresh closure per `addListener` call. The model identifies a wrapper by its handler, which is equivalent because a handler is wrapped at most once while registered.
- Events.Emitter: the subscription library's other behaviour (once-listeners, listener counts, closing subscriptions) is left out.
- ContractInterface.MergeCategory: names present only in the overrides are assumed to be added. No test fixes this.
- Orchestration: the `Lighthouse` constructor's other work, wallet handling, deployment, the loaders and the integration test are outside the core.
- Arrays: arrays, functions and other objects as arguments are modelled only as plain objects or not at all.
- AbiParser.ParseParams: like `AbiParser.ParseAbi`, it resolves a nested tuple's fields with their own components, which is the corrected behaviour recorded under Findings. The code as written drops them, so a nested tuple fails there.
- MethodFactory.MethodFn.Call: it uses the corrected split, so a trailing `null` stays an argument. The code as written throws a `TypeError` there, as recorded under Findings.
- AbiParser.ConstantOutputs: the tests cover only a constant with a single unnamed output. Naming every unnamed output of a constant with several outputs after the constant is the model's choice.
- AbiParser.Matching: its order is the input order by its definition as a filter. MatchingComplete states its content.
- Argument forms: reading the arguments as a named record exactly when there is one argument and it is a plain object is the model's choice (`ParamConversion.ArgsOf`). A single big number or `null` is read positionally.
- String encoding: hex-encoding a string as its UTF-8 bytes in lower-case hex, with nothing trimmed, is the model's choice; the tests fix only `"james"`.
- Strings: JavaScript strings are UTF-16. A model string is a sequence of code points, so lone surrogates cannot be represented.

## Findings

| source | as written | input that shows it | evidently intended | confidence | as-written member | corrected member |
|---|---|---|---|---|---|---|
| src/parsers/ABIParser/__tests__/ABIParser.test.js:318-319 | `parseTupleType` resolves each component with `parseType(type)`, without the component's own `components`, while `parseParams` passes them (lines 386-389) | a tuple whose component `inner` is itself a tuple with a `bool` field | nested tuple components are resolved with their own components | medium, not executed | AbiParser.NestedTupleFinding | AbiParser.TupleFieldsResolved |
| src/modules/methodFactory/index.js:13-21 | `isOptions` tests `typeof input === 'object'`, which holds for `null`, then reads `input.value` | calling a method with `null` as its last argument throws a `TypeError` | `null` is not options and stays an argument | high, not executed | MethodFactory.NullLastArgument | MethodFactory.NullStaysArgument |
