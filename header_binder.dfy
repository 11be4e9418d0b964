/** `CustomHeaderModelBinder.BindModelAsync` (Program.cs): reads the header
    named by the parameter's `BinderModelName` and, when the header's value is
    not null or empty, stores the decoded tokens as the bound model. */
module HeaderBinder {
  import opened Outcomes
  import opened HeaderSplit

  /** The request's header table: each header name with its raw values
      (`StringValues`). An absent name has no values. */
  type HeaderTable = map<string, seq<string>>

  /** `ModelBindingResult`: no model set, or successful with a model.
      `ModelBindingResult.Failed()` is the same value as the default result,
      so it is `Unset` here too. */
  datatype BindingResult = Unset | Success(model: seq<string>)

  /** The two fields of the binding context that binders write. */
  datatype Slots = Slots(model: Option<seq<string>>, result: BindingResult)

  /** What a binder can read from the binding context: the request's
      headers, `ModelMetadata.BinderModelName` (null and "" both written "")
      and `ModelMetadata.ModelType` (the declared parameter type's name). */
  datatype BindingInput = BindingInput(headers: HeaderTable, binderModelName: string, modelType: string)

  /** The framework's own `HeaderModelBinder`, whose code is not part of this
      model: any function from what it reads to the fields it leaves. */
  type InnerBinder = (BindingInput, Slots) -> Slots

  /** `Headers.TryGetValue(key, out var headerValue)`: an absent header leaves
      `headerValue` at `default(StringValues)`, which holds no values. */
  function Lookup(headers: HeaderTable, key: string): seq<string> {
    if key in headers then headers[key] else []
  }

  predicate AllEmpty(values: seq<string>) {
    forall i :: 0 <= i < |values| ==> values[i] == ""
  }

  /** The values other than "", in order. */
  function NonEmptyValues(values: seq<string>): (r: seq<string>)
    ensures forall k :: 0 <= k < |r| ==> r[k] != ""
    ensures r == [] <==> AllEmpty(values)
  {
    if values == [] then []
    else if values[0] == "" then
      assert forall i :: 1 <= i < |values| ==> values[i] == values[1..][i - 1];
      NonEmptyValues(values[1..])
    else [values[0]] + NonEmptyValues(values[1..])
  }

  /** Joining at least one non-empty string never gives "". */
  lemma {:induction false} JoinOfNonEmptyValues(ts: seq<string>, d: char)
    requires ts != [] && ts[0] != ""
    ensures JoinWith(ts, d) != ""
  {
    if |ts| > 1 {
      assert JoinWith(ts, d) == ts[0] + [d] + JoinWith(ts[1..], d);
    }
  }

  /** The implicit conversion of `StringValues` to `string`: null for no
      values, the value itself for one, and for more the values other than ""
      joined by ','. */
  function AsString(values: seq<string>): (r: Option<string>)
    ensures r.None? <==> values == []
    ensures r.Some? ==> (r.value == "" <==> AllEmpty(values))
  {
    if |values| == 0 then None
    else if |values| == 1 then
      assert values == [values[0]];
      Some(values[0])
    else
      var present := NonEmptyValues(values);
      assert present != [] ==> JoinWith(present, ',') != "" by {
        if present != [] { JoinOfNonEmptyValues(present, ','); }
      }
      Some(JoinWith(present, ','))
  }

  /** `string.IsNullOrEmpty` of that conversion. */
  predicate IsNullOrEmpty(s: Option<string>) {
    s == None || s == Some("")
  }

  /** A header counts as empty exactly when every one of its values (there may
      be none) is "". */
  lemma HeaderEmptyIff(values: seq<string>)
    ensures IsNullOrEmpty(AsString(values)) <==> AllEmpty(values)
  {
  }

  /** Values equal to "" contribute no tokens. */
  lemma {:induction false} DecodeNonEmptyValues(values: seq<string>)
    ensures Decode(NonEmptyValues(values)) == Decode(values)
  {
    if values != [] {
      DecodeNonEmptyValues(values[1..]);
      if values[0] != "" {
        assert ([values[0]] + NonEmptyValues(values[1..]))[1..] == NonEmptyValues(values[1..]);
      }
    }
  }

  /** Splitting the converted string gives the same tokens as splitting the
      values one by one: the ',' the conversion inserts is itself a delimiter,
      and the "" it skips holds no token. */
  lemma ConvertedValueSplitsAlike(values: seq<string>)
    requires values != []
    ensures SplitOne(AsString(values).value) == Decode(values)
  {
    if |values| == 1 {
      DecodeSingle(values[0]);
    } else {
      SplitJoined(NonEmptyValues(values), ',');
      DecodeNonEmptyValues(values);
    }
  }

  /** The state of the binding context after the bind step, as a function of
      the state before it. A header with at least one value other than ""
      always binds its decoded tokens, whatever the declared model type and
      whatever the inner binder did. Otherwise the fields are left as they
      were, except that an empty header name first hands the context to the
      inner binder (and execution then still continues). */
  function BindStep(input: BindingInput, before: Slots, inner: InnerBinder): (after: Slots)
    ensures var values := Lookup(input.headers, input.binderModelName);
      && (!AllEmpty(values) ==> after == Slots(Some(Decode(values)), Success(Decode(values))))
      && (AllEmpty(values) ==>
            after == if input.binderModelName == "" then inner(input, before) else before)
  {
    var afterInner := if input.binderModelName == "" then inner(input, before) else before;
    var headerValue := Lookup(input.headers, input.binderModelName);
    HeaderEmptyIff(headerValue);
    if !IsNullOrEmpty(AsString(headerValue)) then
      var result := Decode(headerValue);
      Slots(Some(result), Success(result))
    else
      afterInner
  }

  /** An absent header, or one whose values are all "" (for example
      `Hello:` sent twice), leaves a named binding untouched. */
  lemma BindLeavesAbsentHeader(input: BindingInput, before: Slots, inner: InnerBinder)
    requires input.binderModelName != ""
    requires input.binderModelName !in input.headers
             || forall i :: 0 <= i < |input.headers[input.binderModelName]|
                  ==> input.headers[input.binderModelName][i] == ""
    ensures BindStep(input, before, inner) == before
  {
    assert AllEmpty(Lookup(input.headers, input.binderModelName));
  }

  /** `Hello:` sent twice arrives as the values "" and "", which convert to
      "" and so leave the binding untouched. */
  lemma BindRepeatedEmptyHeader(before: Slots, inner: InnerBinder, modelType: string)
    ensures BindStep(BindingInput(map["Hello" := ["", ""]], "Hello", modelType), before, inner) == before
  {
    var values := Lookup(map["Hello" := ["", ""]], "Hello");
    assert AllEmpty(values);
  }

  /** A header that is present but made of delimiters only (for example
      `Hello: ,`, or the values "" and ",") binds successfully to no tokens
      instead of leaving the result unset. */
  lemma BindDelimiterOnlyHeader(input: BindingInput, before: Slots, inner: InnerBinder)
    requires input.binderModelName in input.headers
    requires !AllEmpty(input.headers[input.binderModelName])
    requires forall i :: 0 <= i < |input.headers[input.binderModelName]|
               ==> AllSeparators(input.headers[input.binderModelName][i])
    ensures BindStep(input, before, inner) == Slots(Some([]), Success([]))
  {
    DecodeAllSeparators(input.headers[input.binderModelName]);
  }

  /** The binding context handed to `BindModelAsync`. The request and the
      model metadata are read-only; `Model` and `Result` are written. */
  class BindingContext {
    const Headers: HeaderTable
    const BinderModelName: string
    const ModelType: string
    var Model: Option<seq<string>>
    var Result: BindingResult

    constructor (headers: HeaderTable, binderModelName: string, modelType: string)
      ensures Headers == headers && BinderModelName == binderModelName && ModelType == modelType
      ensures Model == None && Result == Unset
    {
      Headers := headers;
      BinderModelName := binderModelName;
      ModelType := modelType;
      Model := None;
      Result := Unset;
    }

    function Input(): BindingInput {
      BindingInput(Headers, BinderModelName, ModelType)
    }

    function Fields(): Slots
      reads this
    {
      Slots(Model, Result)
    }
  }

  class CustomHeaderModelBinder {
    const InnerModelBinder: InnerBinder

    constructor (innerModelBinder: InnerBinder)
      ensures InnerModelBinder == innerModelBinder
    {
      InnerModelBinder := innerModelBinder;
    }

    /** `BindModelAsync`, run synchronously. A null context throws; otherwise
        the context's fields end up as `BindStep` describes. */
    method BindModel(bindingContext: BindingContext?) returns (outcome: Throws<()>)
      modifies bindingContext
      ensures bindingContext == null ==> outcome == ArgumentNullException("bindingContext")
      ensures bindingContext != null ==>
        && outcome == Returned(())
        && bindingContext.Fields()
           == BindStep(bindingContext.Input(), old(bindingContext.Fields()), InnerModelBinder)
    {
      if bindingContext == null {
        return ArgumentNullException("bindingContext");
      }

      var headerKey := bindingContext.BinderModelName;
      if headerKey == "" {
        // The inner binder runs, and then execution continues below.
        var bound := InnerModelBinder(bindingContext.Input(), bindingContext.Fields());
        bindingContext.Model, bindingContext.Result := bound.model, bound.result;
      }

      var headerValue := Lookup(bindingContext.Headers, headerKey);
      var modelType := bindingContext.ModelType;  // read, never used
      if !IsNullOrEmpty(AsString(headerValue)) {
        var result := Decode(headerValue);
        bindingContext.Model := Some(result);
        bindingContext.Result := Success(bindingContext.Model.value);
      }
      outcome := Returned(());
    }
  }
}
