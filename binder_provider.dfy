/** `CustomHeaderModelBinderProvider.GetBinder` (Program.cs): offers a
    `CustomHeaderModelBinder` for a parameter exactly when one of its
    attributes has `FromHeaderAttribute` as its exact runtime type. */
module BinderProvider {
  import opened Outcomes
  import opened HeaderBinder

  const FromHeaderAttributeName := "Microsoft.AspNetCore.Mvc.FromHeaderAttribute"

  /** The runtime type of an attribute: its full name and the full names of
      the classes it derives from. */
  datatype AttributeType = AttributeType(name: string, baseTypes: seq<string>)

  /** `a.GetType() == typeof(FromHeaderAttribute)`: the exact type, so a
      subclass does not match. */
  predicate IsExactlyFromHeader(a: AttributeType) {
    a.name == FromHeaderAttributeName
  }

  /** `a is FromHeaderAttribute`, which the provider does not test. */
  predicate IsFromHeaderOrSubclass(a: AttributeType) {
    a.name == FromHeaderAttributeName || FromHeaderAttributeName in a.baseTypes
  }

  /** What `GetBinder` reads from its context: the parameter's attributes, and
      the framework `HeaderModelBinder` that `new HeaderModelBinder(loggerFactory)`
      would build from the registered logger factory. */
  datatype ProviderContext = ProviderContext(attributes: seq<AttributeType>, headerModelBinder: InnerBinder)

  /** `attributes.Where(IsExactlyFromHeader).FirstOrDefault()`, as the index of
      the attribute found. */
  function FirstFromHeader(attributes: seq<AttributeType>): (r: Option<nat>)
    ensures r.Some? ==> r.value < |attributes| && IsExactlyFromHeader(attributes[r.value])
    ensures r.Some? ==> forall j :: 0 <= j < r.value ==> !IsExactlyFromHeader(attributes[j])
    ensures r.None? <==> forall j :: 0 <= j < |attributes| ==> !IsExactlyFromHeader(attributes[j])
  {
    if attributes == [] then None
    else if IsExactlyFromHeader(attributes[0]) then Some(0)
    else match FirstFromHeader(attributes[1..])
      case None => None
      case Some(i) => Some(i + 1)
  }

  /** Attributes none of which has `FromHeaderAttribute` as its exact type,
      subclasses of it included, never select the custom binder. */
  lemma SubclassDoesNotMatch(attributes: seq<AttributeType>)
    requires forall j :: 0 <= j < |attributes| ==> attributes[j].name != FromHeaderAttributeName
    ensures FirstFromHeader(attributes) == None
  {
  }

  /** An attribute deriving from `FromHeaderAttribute` passes an `is` test but
      not the exact-type test. */
  lemma SubclassExample()
    ensures var derived := AttributeType("MyHeaderAttribute", [FromHeaderAttributeName]);
      IsFromHeaderOrSubclass(derived) && FirstFromHeader([derived]) == None
  {
    var derived := AttributeType("MyHeaderAttribute", [FromHeaderAttributeName]);
    assert derived.name != FromHeaderAttributeName;
  }

  /** `GetBinder`. A null context throws; otherwise the result is a fresh
      custom binder around the framework header binder when some attribute is
      exactly `FromHeaderAttribute`, and null when none is. */
  method GetBinder(context: Option<ProviderContext>) returns (r: Throws<CustomHeaderModelBinder?>)
    ensures context.None? ==> r == ArgumentNullException("context")
    ensures context.Some? ==> r.Returned?
    ensures context.Some? ==>
      (r.value != null <==> exists j :: 0 <= j < |context.value.attributes|
                                        && IsExactlyFromHeader(context.value.attributes[j]))
    ensures context.Some? && r.value != null ==>
      fresh(r.value) && r.value.InnerModelBinder == context.value.headerModelBinder
  {
    if context.None? {
      return ArgumentNullException("context");
    }
    var headerAttribute := FirstFromHeader(context.value.attributes);
    if headerAttribute.Some? {
      var binder := new CustomHeaderModelBinder(context.value.headerModelBinder);
      return Returned(binder);
    }
    return Returned(null);
  }
}
