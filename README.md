# ParsingHeader header binder, in Dafny

ParsingHeader is an ASP.NET Core service that changes how a parameter marked
`[FromHeader]` gets its value. The provider `CustomHeaderModelBinderProvider`
replaces the framework's header binder with `CustomHeaderModelBinder`. That
binder reads the named request header, splits every raw value on ' ' and ','
and drops empty pieces, then stores the resulting tokens as the bound model.

This project models that behaviour and proves properties of it:

- `HeaderSplit` is the pure token decoder (`Split` with `RemoveEmptyEntries`,
  then `SelectMany`). It comes with reference definitions: the tokens laid end
  to end, the input with its delimiters removed, joining with a delimiter, and
  the number of token starts. Lemmas relate the decoder to each of them: a
  delimiter cuts, split undoes join, characters are preserved, the token count
  is right, decoding is idempotent, and decoding distributes over
  concatenation of value lists.
- `HeaderBinder` is the bind step. The binding context is a class: its
  `Model` and `Result` fields are written in place, and the request's header
  table is a map. `BindModel` is proved against the state function
  `BindStep`, whose own contract states the result rule.
- `BinderProvider` is the provider's exact-type attribute test and
  `GetBinder`.
- `Outcomes` holds `Option` (a nullable reference) and `Throws` (a normal
  return or an `ArgumentNullException` naming its parameter).

Behaviour kept exactly as the code has it:

- The declared model type is read but never used, so every header is split.
  No contract of the bind step depends on `ModelType`.
- With an empty or null header name, the inner framework binder runs and
  execution then falls through to the lookup and split. The contract of
  `BindStep` states how the two interact.
- Emptiness is `string.IsNullOrEmpty` of the `StringValues`-to-string
  conversion. On .NET Core 3.0 and later (the program uses the .NET 6
  `WebApplication` API), that conversion gives null for no values, the value
  itself for one, and for more the values other than "" joined by ','. So a
  header is empty exactly when all of its values are "", as `HeaderEmptyIff`
  proves; `Hello:` sent twice leaves the binding untouched.
- A scalar-typed parameter might be expected to receive the raw value
  unsplit. The code has no such branch and splits for every parameter type,
  and the model follows the code.

## Model

| member | source | states |
|---|---|---|
| `HeaderSplit.TokenLength` | Program.cs:67 | the length of the leading delimiter-free run: no delimiter before it, a delimiter (or the end) at it |
| `HeaderSplit.SplitOne` | Program.cs:67 | every piece `Split(' ', ',')` keeps under `RemoveEmptyEntries` is non-empty and contains neither ' ' nor ',' |
| `HeaderSplit.Decode` | Program.cs:66-68 | every token of the decoded header is non-empty and delimiter-free |
| `HeaderSplit.SplitOneOfToken` | Program.cs:67 | a value that is already a token splits into exactly that token |
| `HeaderSplit.SplitOneAtSeparator` | Program.cs:67 | a ' ' or ',' cuts: the pieces of `a + d + b` are the pieces of `a` followed by those of `b` |
| `HeaderSplit.SplitJoinRoundTrip` | Program.cs:67 | tokens joined with ' ' or ',' split back into the same tokens |
| `HeaderSplit.SplitJoined` | Program.cs:66-68 | splitting values joined by ' ' or ',' gives the same tokens as decoding the values one by one |
| `HeaderSplit.SplitOneNormalises` | Program.cs:67 | re-joining a value's tokens with one delimiter and splitting again gives the same tokens |
| `HeaderSplit.SplitOneChars` | Program.cs:67 | the tokens, laid end to end, are the value with every ' ' and ',' removed (no trimming, tabs kept) |
| `HeaderSplit.SplitOneEmptyIff` | Program.cs:67 | a value yields no token if and only if it consists of ' ' and ',' only |
| `HeaderSplit.SplitOneCount` | Program.cs:67 | the number of tokens equals the number of positions where a token begins |
| `HeaderSplit.DecodeAppend` | Program.cs:66-68 | `Decode(a + b) == Decode(a) + Decode(b)`: values and their tokens keep their order |
| `HeaderSplit.DecodeSingle` | Program.cs:66-68 | one header value contributes exactly its own pieces |
| `HeaderSplit.DecodeChars` | Program.cs:66-68 | the concatenated tokens are the concatenated values with every ' ' and ',' removed |
| `HeaderSplit.DecodeOfTokens` | Program.cs:66-68 | decoding a sequence of tokens returns it unchanged |
| `HeaderSplit.DecodeIdempotent` | Program.cs:66-68 | `Decode(Decode(v)) == Decode(v)` |
| `HeaderSplit.SeparatorOnlyValueIgnored` | Program.cs:67 | a value of delimiters only contributes no tokens, wherever it stands among the values |
| `HeaderSplit.DecodeAllSeparators` | Program.cs:66-68 | values made of delimiters only decode to no tokens |
| `HeaderSplit.DecodeCount` | Program.cs:66-68 | the token count is the sum, over all values, of their token starts |
| `HeaderSplit.DecodeExampleMixed` | Program.cs:66-68 | `["a,b c", "d"]` decodes to `["a", "b", "c", "d"]` |
| `HeaderSplit.DecodeExampleEmptyPieces` | Program.cs:67 | `["a,,b"]` decodes to `["a", "b"]`: the empty piece is dropped |
| `HeaderSplit.DecodeExampleTab` | Program.cs:67 | a tab is not a delimiter: `["a\tb"]` decodes to `["a\tb"]` |
| `HeaderBinder.NonEmptyValues` | Program.cs:64 | the values the string conversion keeps are all non-empty, and there are none exactly when every value is "" |
| `HeaderBinder.AsString` | Program.cs:64 | the `StringValues`-to-string conversion is null exactly for no values, and is "" exactly when every value is "" |
| `HeaderBinder.HeaderEmptyIff` | Program.cs:64 | `IsNullOrEmpty` of the converted header holds if and only if every value (there may be none) is "" |
| `HeaderBinder.ConvertedValueSplitsAlike` | Program.cs:64-68 | splitting the converted string gives the same tokens as splitting each value: the inserted ',' is a delimiter and skipped "" values hold no token |
| `HeaderBinder.BindStep` | Program.cs:56-71 | the bind rule: a header with some value other than "" binds `Model` and `Result = Success` to the decoded tokens, whatever the model type and the inner binder; otherwise the fields are as the inner binder (empty name) or the caller (named header) left them |
| `HeaderBinder.BindLeavesAbsentHeader` | Program.cs:62-71 | with a header name given, an absent header or one whose values are all "" leaves `Model` and `Result` unchanged |
| `HeaderBinder.BindRepeatedEmptyHeader` | Program.cs:62-71 | the header `Hello` with the two values "" and "" leaves the binding unchanged, whatever the model type |
| `HeaderBinder.BindDelimiterOnlyHeader` | Program.cs:64-70 | a present header whose values are all made of delimiters, at least one of them non-empty (such as "," or "" and ","), binds `Success` of no tokens rather than leaving the result unset |
| `HeaderBinder.CustomHeaderModelBinder.constructor` | Program.cs:41-44 | the binder keeps the inner binder it is given |
| `HeaderBinder.CustomHeaderModelBinder.BindModel` | Program.cs:49-73 | a null context throws `ArgumentNullException("bindingContext")`; otherwise the context's new `Model` and `Result` are `BindStep` of the old ones, including the fall-through after the inner binder |
| `BinderProvider.FirstFromHeader` | Program.cs:87-89 | finds the first attribute whose exact type is `FromHeaderAttribute`, and finds none exactly when no attribute has that exact type |
| `BinderProvider.SubclassDoesNotMatch` | Program.cs:88 | for every attribute list in which no attribute's exact type is `FromHeaderAttribute` (subclasses of it included), no attribute matches the `GetType() ==` test |
| `BinderProvider.SubclassExample` | Program.cs:88 | an attribute `MyHeaderAttribute` deriving from `FromHeaderAttribute` passes an `is` test but does not match |
| `BinderProvider.GetBinder` | Program.cs:79-97 | a null context throws `ArgumentNullException("context")`; otherwise a fresh custom binder around the framework header binder exactly when some attribute's exact type is `FromHeaderAttribute`, null otherwise |

## Left out

- Host setup (Program.cs:15-37): the web application builder, service registration, Swagger, the environment check, `MapControllers` and `Run` are configuration and I/O.
- `async`/`Task` (Program.cs:49, 72): `BindModel` is a synchronous method; awaiting a completed task changes nothing in sequence.
- The framework `HeaderModelBinder` and the `ILoggerFactory` lookup (Program.cs:59, 92-93) are library code: the inner binder is an arbitrary function from what it reads to the `Model` and `Result` it leaves, carried in the provider context.
- The cast of the metadata to `DefaultModelMetadata` and the null dereference it could cause (Program.cs:86-87) are a framework type detail; the provider context carries the attribute list directly.
- A null `BinderModelName` is modelled as the empty name. What the framework's header table does when asked for a null key is library behaviour and is not part of this model.
- Header names are looked up exactly; the framework's case-insensitive comparison of header names is not modelled.
- The nullable `InnerModelBinder` property is modelled as always present, as the provider always supplies one; a null inner binder would throw when called.
- Null entries inside `StringValues` are not modelled: a request header's raw values are never null.
- `Model` is an `object` in the framework; here it is null or a string sequence, which is all this binder writes.
- `BindingTask1/Controllers/BindingHeader.cs` only echoes the bound array in a response object and has no logic of its own.
- An absent header leaves `Result` unset rather than binding an empty array, so the framework's default handling applies; the model follows the code here.
