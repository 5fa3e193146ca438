/**
 * A contract event: the overloads of one event, keyed by signature. Handlers are
 * wrapped so that a raw log reaches them typed; the wrappers are attached to one
 * subscription (an emitter) per signature, on its `data` and `error` channels.
 * The hash function and the result-object converter are parameters of the model.
 */
module Events {
  import opened Wrappers
  import opened JsValues
  import opened ParamTypes
  import opened Errors
  import ParamConversion

  /** The spec handed to an event: its name and its overloads, keyed by signature, in key order. */
  datatype EventSpec = EventSpec(name: string, output: seq<Overload>)

  /** The identity of a handler function. */
  datatype Handler = Handler(id: nat)

  /** The function `wrapHandlerFunction` returns for a handler. */
  datatype Wrapped = Wrapped(handler: Handler)

  /** The parts of an event log the wrapper reads. */
  datatype Log = Log(signature: string, returnValues: Value)

  /** What an emitter hands a listener: an error, or a log. */
  datatype Arg = Failed(message: string) | Emitted(log: Log)

  datatype TypedEvent = TypedEvent(event: Log, signature: string, data: map<string, Value>)

  /** A call of a handler: `(error)` or `(undefined, typedEvent)`. */
  datatype Call = Call(handler: Handler, error: Option<string>, event: Option<TypedEvent>)

  datatype Channel = OnData | OnError

  predicate NoDup<T(==)>(s: seq<T>) {
    forall i, j :: 0 <= i < j < |s| ==> s[i] != s[j]
  }

  /** `s` with every occurrence of `x` removed, the rest in order. */
  function Without<T(==,!new)>(s: seq<T>, x: T): (r: seq<T>)
    ensures forall y :: y in r <==> y in s && y != x
    ensures x !in s ==> r == s
    ensures |r| <= |s|
  {
    if s == [] then []
    else (if s[0] == x then [] else [s[0]]) + Without(s[1..], x)
  }

  /** Removing what was just appended, when it was not there before, gives back the original. */
  lemma {:induction false} WithoutAppended<T(!new)>(s: seq<T>, x: T)
    requires x !in s
    ensures Without(s + [x], x) == s
  {
    if s != [] {
      assert (s + [x])[1..] == s[1..] + [x];
      WithoutAppended(s[1..], x);
    }
  }

  /** Removal keeps the elements distinct. */
  lemma {:induction false} WithoutNoDup<T(!new)>(s: seq<T>, x: T)
    requires NoDup(s)
    ensures NoDup(Without(s, x))
  {
    if s != [] {
      WithoutNoDup(s[1..], x);
      var rest := Without(s[1..], x);
      assert s[0] !in s[1..];
    }
  }

  function Wrap(h: Handler): Wrapped {
    Wrapped(h)
  }

  /** The wrappers of handlers, in the handlers' order. */
  function Listeners(hs: seq<Handler>): (ws: seq<Wrapped>)
    ensures |ws| == |hs| && forall i :: 0 <= i < |hs| ==> ws[i] == Wrap(hs[i])
  {
    seq(|hs|, i requires 0 <= i < |hs| => Wrap(hs[i]))
  }

  /** The wrappers of a concatenation are the concatenated wrappers. */
  lemma ListenersConcat(a: seq<Handler>, b: seq<Handler>)
    ensures Listeners(a + b) == Listeners(a) + Listeners(b)
  {
    var l := Listeners(a + b);
    var r := Listeners(a) + Listeners(b);
    assert |l| == |r|;
    forall i | 0 <= i < |l|
      ensures l[i] == r[i]
    {
      if i < |a| {
        assert (a + b)[i] == a[i];
      } else {
        assert (a + b)[i] == b[i - |a|];
      }
    }
  }

  /** Detaching a handler's wrapper is detaching the handler. */
  lemma {:induction false} ListenersWithout(hs: seq<Handler>, h: Handler)
    ensures Without(Listeners(hs), Wrap(h)) == Listeners(Without(hs, h))
  {
    if hs != [] {
      var ws := Listeners(hs);
      var head: seq<Handler> := if hs[0] == h then [] else [hs[0]];
      var tail := Without(hs[1..], h);
      ListenersWithout(hs[1..], h);
      assert ws[1..] == Listeners(hs[1..]);
      assert ws[0] == Wrap(hs[0]) && (ws[0] == Wrap(h) <==> hs[0] == h);
      assert Without(ws, Wrap(h)) == Listeners(head) + Without(ws[1..], Wrap(h));
      assert Without(hs, h) == head + tail;
      ListenersConcat(head, tail);
    }
  }

  /** The index of the first overload whose signature hashes to `hash`. */
  function FirstMatch(output: seq<Overload>, sha3: string -> string, hash: string): (r: Option<nat>)
    ensures r.Some? ==> r.value < |output| && sha3(output[r.value].signature) == hash
    ensures r.Some? ==> forall j :: 0 <= j < r.value ==> sha3(output[j].signature) != hash
    ensures r.None? <==> forall j :: 0 <= j < |output| ==> sha3(output[j].signature) != hash
  {
    if output == [] then None
    else if sha3(output[0].signature) == hash then Some(0)
    else match FirstMatch(output[1..], sha3, hash)
      case None => None
      case Some(k) => Some(k + 1)
  }

  /** A subscription as the adapter hands it back: listener lists per channel. */
  class Emitter {
    const event: string
    var data: seq<Wrapped>
    var errors: seq<Wrapped>

    constructor(event: string)
      ensures this.event == event && data == [] && errors == []
    {
      this.event := event;
      data := [];
      errors := [];
    }

    /** `emitter.on(channel, fn)`: appends to that channel's listeners. */
    method On(channel: Channel, w: Wrapped)
      modifies this
      ensures channel == OnData ==> data == old(data) + [w] && errors == old(errors)
      ensures channel == OnError ==> errors == old(errors) + [w] && data == old(data)
    {
      if channel == OnData {
        data := data + [w];
      } else {
        errors := errors + [w];
      }
    }

    /** `emitter.removeListener(channel, fn)`: drops every occurrence of `fn` from that channel. */
    method RemoveListener(channel: Channel, w: Wrapped)
      modifies this
      ensures channel == OnData ==> data == Without(old(data), w) && errors == old(errors)
      ensures channel == OnError ==> errors == Without(old(errors), w) && data == old(data)
    {
      if channel == OnData {
        data := Without(data, w);
      } else {
        errors := Without(errors, w);
      }
    }
  }

  /** The emitters are one subscription per overload, in the spec's key order. */
  predicate Subscribed(emitters: seq<Emitter>, output: seq<Overload>) {
    |emitters| == |output| && forall i :: 0 <= i < |output| ==> emitters[i].event == output[i].signature
  }

  class Event {
    const spec: EventSpec
    const sha3: string -> string
    const convertResultObj: (nat, Value) -> seq<Value>
    var emitters: seq<Emitter>
    var wrappedHandlers: map<Handler, Wrapped>
    /** The handlers attached, in the order they were added. */
    ghost var registered: seq<Handler>

    /**
     * Every attached handler is stored with its wrapper; every emitter carries the wrappers of
     * the attached handlers, in order, on both channels; emitters exist once a handler was
     * attached to an event that has overloads, one per overload.
     */
    ghost predicate Valid()
      reads this, emitters
    {
      && NoDup(emitters)
      && NoDup(registered)
      && (forall h :: h in wrappedHandlers <==> h in registered)
      && (forall h :: h in wrappedHandlers ==> wrappedHandlers[h] == Wrap(h))
      && (forall e :: e in emitters ==> e.data == Listeners(registered) && e.errors == Listeners(registered))
      && (emitters != [] ==> Subscribed(emitters, spec.output))
      && (emitters == [] ==> spec.output == [] || registered == [])
    }

    constructor(spec: EventSpec, sha3: string -> string, convertResultObj: (nat, Value) -> seq<Value>)
      ensures Valid()
      ensures this.spec == spec && this.sha3 == sha3 && this.convertResultObj == convertResultObj
      ensures emitters == [] && wrappedHandlers == map[] && registered == []
    {
      this.spec := spec;
      this.sha3 := sha3;
      this.convertResultObj := convertResultObj;
      emitters := [];
      wrappedHandlers := map[];
      registered := [];
    }

    /**
     * `_findSignatureByHash`: the first overload whose signature hashes to `hash`; an empty
     * signature counts as not found, as a falsy result does.
     */
    function FindSignatureByHash(hash: string): (r: Result<Overload, Error>)
      ensures r.Success? ==> r.value in spec.output && sha3(r.value.signature) == hash && r.value.signature != ""
      ensures r.Success? ==> exists i :: (0 <= i < |spec.output| && spec.output[i] == r.value &&
        forall j :: 0 <= j < i ==> sha3(spec.output[j].signature) != hash)
      ensures r.Failure? ==> r.error == SignatureNotMatched(hash)
      ensures (forall j :: 0 <= j < |spec.output| ==> sha3(spec.output[j].signature) != hash) ==> r.Failure?
      ensures r.Success? <==>
        (var m := FirstMatch(spec.output, sha3, hash); m.Some? && spec.output[m.value].signature != "")
    {
      match FirstMatch(spec.output, sha3, hash)
      case None => Failure(SignatureNotMatched(hash))
      case Some(i) =>
        if spec.output[i].signature == "" then Failure(SignatureNotMatched(hash))
        else Success(spec.output[i])
    }

    /** With distinct hashes and non-empty signatures, every overload is found by its own hash. */
    lemma SignatureRoundTrip(i: nat)
      requires i < |spec.output| && spec.output[i].signature != ""
      requires forall j, k :: 0 <= j < k < |spec.output| ==> sha3(spec.output[j].signature) != sha3(spec.output[k].signature)
      ensures FindSignatureByHash(sha3(spec.output[i].signature)) == Success(spec.output[i])
    {
      var hash := sha3(spec.output[i].signature);
      var m := FirstMatch(spec.output, sha3, hash);
      assert m.Some?;
    }

    /**
     * Calling the wrapper of `wrapHandlerFunction`: an error goes to the handler as is; a log
     * is resolved to its overload and the handler gets the log, the signature and the
     * converted values; a log whose hash matches no overload throws instead.
     */
    function Invoke(w: Wrapped, arg: Arg): (r: Result<Call, Error>)
      ensures arg.Failed? ==> r == Success(Call(w.handler, Some(arg.message), None))
      ensures arg.Emitted? ==> (r.Success? <==> FindSignatureByHash(arg.log.signature).Success?)
      ensures arg.Emitted? && r.Failure? ==> r.error == SignatureNotMatched(arg.log.signature)
      ensures arg.Emitted? && r.Success? ==>
        && r.value.handler == w.handler
        && r.value.error.None? && r.value.event.Some?
        && r.value.event.value.event == arg.log
        && sha3(r.value.event.value.signature) == arg.log.signature
        && exists o :: o in spec.output && o.signature == r.value.event.value.signature &&
             r.value.event.value.data.Keys <= set p | p in o.params :: p.name
      ensures arg.Emitted? && r.Success? ==>
        var o := FindSignatureByHash(arg.log.signature).value;
        r.value.event == Some(TypedEvent(arg.log, o.signature,
          ParamConversion.ConvertOutput(o.params, convertResultObj(|o.params|, arg.log.returnValues))))
    {
      match arg
      case Failed(message) => Success(Call(w.handler, Some(message), None))
      case Emitted(log) =>
        match FindSignatureByHash(log.signature)
        case Failure(e) => Failure(e)
        case Success(o) =>
          var data := ParamConversion.ConvertOutput(o.params, convertResultObj(|o.params|, log.returnValues));
          assert data.Keys <= set p | p in o.params :: p.name;
          Success(Call(w.handler, None, Some(TypedEvent(log, o.signature, data))))
    }

    /** `_createEmitters`: one new subscription per overload, replacing the list. */
    method CreateEmitters()
      modifies this
      ensures Subscribed(emitters, spec.output) && NoDup(emitters)
      ensures forall e :: e in emitters ==> fresh(e) && e.data == [] && e.errors == []
      ensures wrappedHandlers == old(wrappedHandlers) && registered == old(registered)
    {
      var created: seq<Emitter> := [];
      var i := 0;
      while i < |spec.output|
        invariant 0 <= i <= |spec.output| && |created| == i
        invariant forall k :: 0 <= k < i ==> created[k].event == spec.output[k].signature
        invariant forall e :: e in created ==> fresh(e) && e.data == [] && e.errors == []
        invariant NoDup(created)
        invariant wrappedHandlers == old(wrappedHandlers) && registered == old(registered)
      {
        var e := new Emitter(spec.output[i].signature);
        assert e !in created;
        created := created + [e];
        i := i + 1;
      }
      emitters := created;
      assert Subscribed(emitters, spec.output);
    }

    /** `_addListener`: the wrapper goes on both channels of every emitter. */
    method AddToEmitters(w: Wrapped)
      requires NoDup(emitters)
      modifies set e | e in emitters
      ensures forall k :: 0 <= k < |emitters| ==>
        emitters[k].data == old(emitters[k].data) + [w] && emitters[k].errors == old(emitters[k].errors) + [w]
    {
      var i := 0;
      while i < |emitters|
        invariant 0 <= i <= |emitters|
        invariant forall k :: 0 <= k < i ==>
          emitters[k].data == old(emitters[k].data) + [w] && emitters[k].errors == old(emitters[k].errors) + [w]
        invariant forall k :: i <= k < |emitters| ==>
          emitters[k].data == old(emitters[k].data) && emitters[k].errors == old(emitters[k].errors)
      {
        emitters[i].On(OnData, w);
        emitters[i].On(OnError, w);
        i := i + 1;
      }
    }

    /** `_removeListener`: the wrapper leaves both channels of every emitter. */
    method RemoveFromEmitters(w: Wrapped)
      requires NoDup(emitters)
      modifies set e | e in emitters
      ensures forall k :: 0 <= k < |emitters| ==>
        emitters[k].data == Without(old(emitters[k].data), w) && emitters[k].errors == Without(old(emitters[k].errors), w)
    {
      var i := 0;
      while i < |emitters|
        invariant 0 <= i <= |emitters|
        invariant forall k :: 0 <= k < i ==>
          emitters[k].data == Without(old(emitters[k].data), w) && emitters[k].errors == Without(old(emitters[k].errors), w)
        invariant forall k :: i <= k < |emitters| ==>
          emitters[k].data == old(emitters[k].data) && emitters[k].errors == old(emitters[k].errors)
      {
        emitters[i].RemoveListener(OnData, w);
        emitters[i].RemoveListener(OnError, w);
        i := i + 1;
      }
    }

    /**
     * `addListener`: a handler already attached is left alone; otherwise the emitters are
     * created if there are none yet, and the handler's wrapper is attached to all of them.
     */
    method AddListener(h: Handler)
      requires Valid()
      modifies this, emitters
      ensures Valid()
      ensures h in wrappedHandlers && wrappedHandlers[h] == Wrap(h)
      ensures old(h in wrappedHandlers) ==>
        wrappedHandlers == old(wrappedHandlers) && registered == old(registered) && emitters == old(emitters)
      ensures old(h !in wrappedHandlers) ==>
        wrappedHandlers == old(wrappedHandlers)[h := Wrap(h)] && registered == old(registered) + [h]
      ensures old(emitters) != [] ==> emitters == old(emitters)
      ensures spec.output != [] ==> Subscribed(emitters, spec.output)
      ensures forall e :: e in emitters ==> e in old(emitters) || fresh(e)
    {
      if h in wrappedHandlers {
        return;
      }
      Attach(h);
    }

    /** The part of `addListener` that runs for a handler not attached yet. */
    method Attach(h: Handler)
      requires Valid() && h !in wrappedHandlers
      modifies this, emitters
      ensures Valid()
      ensures wrappedHandlers == old(wrappedHandlers)[h := Wrap(h)] && registered == old(registered) + [h]
      ensures old(emitters) != [] ==> emitters == old(emitters)
      ensures spec.output != [] ==> Subscribed(emitters, spec.output)
      ensures forall e :: e in emitters ==> e in old(emitters) || fresh(e)
    {
      if |emitters| == 0 {
        CreateEmitters();
      }
      var w := Wrap(h);
      assert forall e :: e in emitters ==> e in old(emitters) || fresh(e);
      assert forall e :: e in emitters ==> e.data == Listeners(registered) && e.errors == Listeners(registered);
      AddToEmitters(w);
      assert Listeners(registered + [h]) == Listeners(registered) + [w];
      wrappedHandlers := wrappedHandlers[h := w];
      registered := registered + [h];
      assert forall e :: e in emitters ==> e.data == Listeners(registered) && e.errors == Listeners(registered);
    }

    /** `removeListener`: an attached handler's wrapper is detached and forgotten; the emitters stay. */
    method RemoveListener(h: Handler)
      requires Valid()
      modifies this, emitters
      ensures Valid()
      ensures h !in wrappedHandlers
      ensures wrappedHandlers == old(wrappedHandlers) - {h}
      ensures registered == Without(old(registered), h)
      ensures emitters == old(emitters)
    {
      if h in wrappedHandlers {
        var w := wrappedHandlers[h];
        RemoveFromEmitters(w);
        wrappedHandlers := wrappedHandlers - {h};
        ListenersWithout(registered, h);
        WithoutNoDup(registered, h);
        registered := Without(registered, h);
      } else {
        assert h !in registered;
      }
    }
  }

  /**
   * Adding a handler the event does not hold and removing it again restores the registry,
   * and every subscription is left with the listeners it had before.
   */
  method AddThenRemove(ev: Event, h: Handler)
    requires ev.Valid() && h !in ev.wrappedHandlers
    modifies ev, set e | e in ev.emitters
    ensures ev.Valid()
    ensures ev.wrappedHandlers == old(ev.wrappedHandlers) && ev.registered == old(ev.registered)
    ensures forall e :: e in ev.emitters ==> e.data == Listeners(old(ev.registered)) && e.errors == Listeners(old(ev.registered))
  {
    ev.AddListener(h);
    assert forall e :: e in ev.emitters ==> e in old(ev.emitters) || fresh(e);
    ev.RemoveListener(h);
    WithoutAppended(old(ev.registered), h);
    assert ev.wrappedHandlers == old(ev.wrappedHandlers)[h := Wrap(h)] - {h};
  }
}
