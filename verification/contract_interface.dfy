/**
 * The contract interface and its overrides: three categories (constants, events,
 * methods), each mapping an entry name to a spec record of named fields. The
 * interface a contract gets is the parsed one with the user's overrides merged in,
 * field by field per entry name, the override winning each field it sets.
 * Field values are left abstract (`V`): params tables, converters, hooks alike.
 */
module ContractInterface {
  import opened Wrappers

  /** A spec record: field name (`input`, `output`, `convertInput`, ...) to value. */
  type Fields<V> = map<string, V>

  /** A category: entry name to spec record. */
  type Category<V> = map<string, Fields<V>>

  datatype Interface<V> = Interface(constants: Category<V>, events: Category<V>, methods: Category<V>)

  /** The record under `name`, empty when the category has none. */
  function Entry<V>(c: Category<V>, name: string): Fields<V> {
    if name in c then c[name] else map[]
  }

  /** One record merged: each field from the override when it sets it, else from the parsed spec. */
  function MergeFields<V>(parsed: Fields<V>, override: Fields<V>): (r: Fields<V>)
    ensures r.Keys == parsed.Keys + override.Keys
    ensures forall f :: f in override ==> r[f] == override[f]
    ensures forall f :: f in parsed && f !in override ==> r[f] == parsed[f]
  {
    parsed + override
  }

  /** One category merged: every name of either side, its records merged field by field. */
  function MergeCategory<V>(parsed: Category<V>, override: Category<V>): (r: Category<V>)
    ensures r.Keys == parsed.Keys + override.Keys
    ensures forall n :: n in r ==> r[n] == MergeFields(Entry(parsed, n), Entry(override, n))
  {
    map n | n in parsed.Keys + override.Keys :: MergeFields(Entry(parsed, n), Entry(override, n))
  }

  /**
   * Who wins in a merged category: it holds the names of both sides; each record holds the
   * fields of both sides; a field the override sets comes from the override, any other
   * from the parsed spec.
   */
  ghost predicate Wins<V>(parsed: Category<V>, override: Category<V>, merged: Category<V>) {
    && merged.Keys == parsed.Keys + override.Keys
    && forall n :: n in merged ==>
      && merged[n].Keys == Entry(parsed, n).Keys + Entry(override, n).Keys
      && (forall f :: f in Entry(override, n) ==> merged[n][f] == Entry(override, n)[f])
      && (forall f :: f in Entry(parsed, n) && f !in Entry(override, n) ==> merged[n][f] == Entry(parsed, n)[f])
  }

  /** `_defineContractInterface`: the parsed interface with the overrides merged into each category. */
  function Merge<V>(parsed: Interface<V>, overrides: Interface<V>): (r: Interface<V>)
    ensures Wins(parsed.constants, overrides.constants, r.constants)
    ensures Wins(parsed.events, overrides.events, r.events)
    ensures Wins(parsed.methods, overrides.methods, r.methods)
  {
    Interface(
      MergeCategory(parsed.constants, overrides.constants),
      MergeCategory(parsed.events, overrides.events),
      MergeCategory(parsed.methods, overrides.methods))
  }

  /** The overrides the constructor keeps: each category as given, or `{}` when not given. */
  function Overrides<V>(constants: Option<Category<V>>, events: Option<Category<V>>, methods: Option<Category<V>>): (r: Interface<V>)
    ensures constants.None? ==> r.constants == map[]
    ensures events.None? ==> r.events == map[]
    ensures methods.None? ==> r.methods == map[]
    ensures constants.Some? ==> r.constants == constants.value
    ensures events.Some? ==> r.events == events.value
    ensures methods.Some? ==> r.methods == methods.value
  {
    Interface(constants.GetOr(map[]), events.GetOr(map[]), methods.GetOr(map[]))
  }

  /**
   * Who wins for one field of one entry: the override when it sets the field (wholesale, an
   * `input` table included), else the parsed spec; a field neither sets stays absent.
   */
  lemma FieldWinner<V>(parsed: Category<V>, override: Category<V>, name: string, field: string)
    ensures var merged := Entry(MergeCategory(parsed, override), name);
      && (field in Entry(override, name) ==> field in merged && merged[field] == Entry(override, name)[field])
      && (field !in Entry(override, name) && field in Entry(parsed, name) ==> field in merged && merged[field] == Entry(parsed, name)[field])
      && (field !in Entry(override, name) && field !in Entry(parsed, name) ==> field !in merged)
  {
    var r := MergeCategory(parsed, override);
    if name !in parsed && name !in override {
      assert name !in r;
    }
  }

  /** With no overrides the interface is the parsed one. */
  lemma {:induction false} NoOverridesIsIdentity<V>(parsed: Interface<V>)
    ensures Merge(parsed, Overrides(None, None, None)) == parsed
  {
    MergeCategoryEmpty(parsed.constants);
    MergeCategoryEmpty(parsed.events);
    MergeCategoryEmpty(parsed.methods);
  }

  lemma MergeCategoryEmpty<V>(parsed: Category<V>)
    ensures MergeCategory(parsed, map[]) == parsed
  {
    var r := MergeCategory(parsed, map[]);
    forall n | n in r
      ensures r[n] == parsed[n]
    {
      assert MergeFields(parsed[n], map[]) == parsed[n];
    }
  }

  /** Merging the same overrides again changes nothing. */
  lemma MergeIdempotent<V>(parsed: Interface<V>, overrides: Interface<V>)
    ensures Merge(Merge(parsed, overrides), overrides) == Merge(parsed, overrides)
  {
    MergeCategoryIdempotent(parsed.constants, overrides.constants);
    MergeCategoryIdempotent(parsed.events, overrides.events);
    MergeCategoryIdempotent(parsed.methods, overrides.methods);
  }

  lemma MergeCategoryIdempotent<V>(parsed: Category<V>, override: Category<V>)
    ensures MergeCategory(MergeCategory(parsed, override), override) == MergeCategory(parsed, override)
  {
    var once := MergeCategory(parsed, override);
    var twice := MergeCategory(once, override);
    forall n | n in twice
      ensures twice[n] == once[n]
    {
      var f1 := Entry(once, n);
      assert MergeFields(f1, Entry(override, n)) == f1;
    }
  }

  /**
   * The merged `getTaskRole` constant of the interface test: `input` from the override,
   * `convertInput` kept from the parsed spec, `convertOutput` added from the override.
   */
  lemma GetTaskRoleExample<V>(parsedInput: V, convertInput: V, overrideInput: V, convertOutput: V)
    ensures var parsed := map["getTaskRole" := map["input" := parsedInput, "convertInput" := convertInput]];
      var override := map["getTaskRole" := map["input" := overrideInput, "convertOutput" := convertOutput]];
      MergeCategory(parsed, override) ==
        map["getTaskRole" := map["input" := overrideInput, "convertInput" := convertInput, "convertOutput" := convertOutput]]
  {
    var parsed := map["getTaskRole" := map["input" := parsedInput, "convertInput" := convertInput]];
    var override := map["getTaskRole" := map["input" := overrideInput, "convertOutput" := convertOutput]];
    var expected := map["input" := overrideInput, "convertInput" := convertInput, "convertOutput" := convertOutput];
    var r := MergeCategory(parsed, override);
    assert r.Keys == {"getTaskRole"};
    assert MergeFields(Entry(parsed, "getTaskRole"), Entry(override, "getTaskRole")) == expected;
  }
}
