# praborrow-defense `#[derive(Constitution)]`, modelled in Dafny

The crate provides one procedural macro. `#[derive(Constitution)]` reads a
struct's `#[invariant(...)]` field attributes and emits two impls:

- an `impl CheckProtocol` whose `enforce_law` checks every invariant at run
  time;
- an `impl ProveInvariant` with the `INVARIANTS` string array, the list of
  integer fields fed to the data hash, and a field provider that hands
  integer field values to the SMT backend.

When any invariant fails to parse, it emits only a compile error instead.

This project models the expansion as a pure function, `Derive.Expand`. It
maps a struct description (`Syntax.DeriveInput`) to an `Expansion` record or
a `DeriveError`. It also models what the generated code does at run time:

- `Enforce.EnforceLaw` is the body of `enforce_law`;
- `Provider.GetFieldValue` is the generated `get_field_value`.

The three parsers the macro consults are treated as opaque predicates. They
are passed in as the `Derive.Parsers` record: `parse_args::<syn::Expr>`,
`syn::parse_str` and the prover's `ExpressionParser::parse`. Evaluating a
condition on an instance is also opaque: it is the function
`holds: string -> bool` (the `Enforce.Instance` type).

The modules group the parts of src/lib.rs:

- `Syntax` (syntax.dfy): fields, types, attributes, `is_integer_type` and the
  signedness test.
- `Provider` (provider.dfy): the field-provider arms and the `as u64` /
  `as i64` casts.
- `Enforce` (enforce.dfy): the generated `enforce_law`.
- `Derive` (derive.dfy): the collection loops of `derive_constitution` and
  the expansion. It holds a functional definition and a loop-based method
  that follows the Rust loops; the method is proved equal to the function.
- `Scenarios` (scenarios.dfy): the structs of the crate's tests and its
  module documentation.

The generated `enforce_law` returns a `Result`. It does not panic, although
the crate's module documentation (src/lib.rs:4) says it does. The model
follows the code. The code stops at the first failing condition. A check that collects every
violation is the natural alternative. `Enforce.Violations` defines it, and
`Enforce.ReportsFirstViolation` proves that the code reports its first
entry.

## Model

| member | source | states |
|---|---|---|
| Syntax.IsIntegerType | src/lib.rs:51-73 | `is_integer_type`: holds only for path types whose last segment is one of the twelve primitive integer names; `Syntax.IntegerTypeShape` characterizes it independently |
| Syntax.IsUnsigned | src/lib.rs:203-211 | the signedness test "last segment starts with 'u'"; `Syntax.UnsignedClassification` states which names it accepts |
| Syntax.IsInvariantAttr | src/lib.rs:101-103 | an attribute is collected exactly when it is in list form and its path is the single identifier `invariant`; `Derive.FieldTextsNonEmpty` and `Derive.FieldConditions` state its effect |
| Syntax.ConditionText | src/lib.rs:109-134 | the recorded text is a string literal's content or the token rendering of the expression, independent of the parsers; `Derive.Condition` states that a passing condition records it |
| Syntax.IntegerTypeShape | src/lib.rs:51-73 | `is_integer_type` holds exactly for a path type whose last segment is `i` or `u` followed by one of the widths 8, 16, 32, 64, 128, size; every non-path type is rejected |
| Syntax.IntegerNameShape | src/lib.rs:56-69 | the twelve accepted names are exactly the sign-letter-plus-width names |
| Syntax.UnsignedClassification | src/lib.rs:203-211 | on integer types, "last segment starts with 'u'" holds exactly for the six unsigned names and fails exactly for the six signed ones |
| Provider.AsU64 | src/lib.rs:216 | `as u64` keeps the low 64 bits: the result lies in [0, 2^64) and differs from the value by a multiple of 2^64, so it is the identity on that range |
| Provider.AsI64 | src/lib.rs:222 | `as i64` reads the low 64 bits as two's complement: the result lies in [-2^63, 2^63) and differs from the value by a multiple of 2^64, so it is the identity on that range |
| Provider.AsU64Unique | src/lib.rs:216 | every value in [0, 2^64) congruent to the field's value modulo 2^64 is the `as u64` result, so the cast is fully determined |
| Provider.AsI64Unique | src/lib.rs:222 | every value in [-2^63, 2^63) congruent to the field's value modulo 2^64 is the `as i64` result, so the cast is fully determined |
| Provider.ArmValue | src/lib.rs:213-225 | an arm casts with `as u64` into `UInt` or with `as i64` into `Int`; its values are stated by `Provider.NarrowFieldsExact` and `Provider.WideFieldsWrap` |
| Provider.KindOf | src/lib.rs:203-211 | the cast is `UInt` exactly when the last type segment starts with 'u'; on integer types `Syntax.UnsignedClassification` states that this means one of the six unsigned names |
| Provider.GetFieldValue | src/lib.rs:259-263 | the provider fails exactly when no arm carries the requested name, and then with an "Unknown field" error naming it; otherwise the first arm with that name converts the field's value |
| Provider.NarrowFieldsExact | src/lib.rs:213-225 | for integer fields narrower than 128 bits, the provided value equals the field's value, as `UInt` for the unsigned names and `Int` for the signed ones |
| Provider.WideFieldsWrap | src/lib.rs:213-225 | a `u128` field holding 2^64 is provided as `UInt(0)` and an `i128` field holding 2^63 as `Int(-2^63)` |
| Enforce.EnforceLaw | src/lib.rs:229-235 | `enforce_law` returns `Ok(())` exactly when every condition holds; otherwise it returns `InvariantViolation` with the expression of the first failing condition and an empty `values` map |
| Enforce.Evaluated | src/lib.rs:150-157 | one call evaluates the conditions up to and including the first failing one, all of which before it hold |
| Enforce.EnforceLawSequentially | src/lib.rs:150-157 | the sequence of guarded early returns gives the same result as `EnforceLaw` and evaluates exactly `Evaluated` conditions |
| Enforce.LaterConditionsNotEvaluated | src/lib.rs:150-157 | two instances that agree on the evaluated conditions get the same result, so conditions after the first failure are never evaluated |
| Enforce.ReportsFirstViolation | src/lib.rs:231-235 | the check succeeds exactly when the collect-all violation list is empty, and otherwise reports that list's first entry |
| Derive.Condition | src/lib.rs:106-144 | an invariant payload passes exactly when `parse_args` accepts it, `parse_str` accepts a string literal's content, and the prover parser accepts the recorded text; the recorded text is the literal's content or the token rendering; each failing stage has its own error |
| Derive.FieldConditions | src/lib.rs:100-165 | a field's attributes succeed exactly when none of its invariant attributes fails; the collected texts are those of its list-form `invariant` attributes, in attribute order, and other attributes contribute nothing |
| Derive.CollectFields | src/lib.rs:93-174 | the field loop succeeds exactly when no invariant attribute of any field fails; it yields one list per field, and list i holds the texts of field i's invariant attributes in attribute order |
| Derive.CollectFieldsConcat | src/lib.rs:93-182 | the per-field lists laid end to end are every invariant text, fields in declaration order, then attributes in attribute order, which is the `INVARIANTS` array |
| Derive.Expand | src/lib.rs:79-182 | the expansion succeeds exactly when no invariant attribute fails; `INVARIANTS` is every invariant text in declaration order; its length, the invariant count and the number of runtime checks agree, and check i reports invariant i; an input that is not a struct with named fields yields no invariants, checks, infos, hash fields or arms |
| Derive.FieldConditionsFirstFailure | src/lib.rs:117-161 | a field's failure is the error of its first failing invariant attribute |
| Derive.CollectFieldsFirstFailure | src/lib.rs:93-174 | the field loop's failure is the error of the first failing invariant attribute across all fields |
| Derive.ExpandStopsAtFirstFailure | src/lib.rs:106-161 | a parse failure at any of the three stages replaces the whole expansion by the compile error of the first failing invariant attribute, in field order then attribute order |
| Derive.FieldTextsNonEmpty | src/lib.rs:167 | a field collects at least one text exactly when it carries a list-form `invariant` attribute |
| Derive.Infos | src/lib.rs:167-173 | one `FieldInfo` per field that collected a condition, in declaration order; stated independently by `Derive.InfosMatchSpec`, `Derive.InfosConcat` and `Derive.InfosNonEmpty` |
| Derive.InfosMatchSpec | src/lib.rs:167-173 | the field infos are those of the fields that carry an invariant attribute, in declaration order, each holding that field's texts |
| Derive.InfosConcat | src/lib.rs:146-173 | the field infos' invariant lists laid end to end are the per-field lists laid end to end, so no text is lost or duplicated by skipping fields without invariants |
| Derive.InfosNonEmpty | src/lib.rs:167-173 | every field info holds a non-empty invariant list |
| Derive.ExpandFieldInfos | src/lib.rs:167-173 | in a successful expansion, `FieldInfo`s exist exactly for the fields with an invariant attribute; each keeps its non-empty list; together they make up `INVARIANTS` |
| Derive.ChecksOf | src/lib.rs:150-157 | one runtime check per invariant text, check i reporting text i |
| Derive.HashFields | src/lib.rs:186-194 | the hashed fields are the integer-typed fields' names in declaration order; stated by `Derive.IntegerFieldsHashAndArms` |
| Derive.Arms | src/lib.rs:198-227 | one provider arm per integer-typed field, `UInt` exactly for the unsigned names; stated by `Derive.IntegerFieldsHashAndArms` |
| Derive.IntegerFields | src/lib.rs:186-188 | a field is kept exactly when it is one of the struct's fields and has an integer type |
| Derive.IntegerFieldsAppend | src/lib.rs:186-194 | the integer-field filter preserves declaration order: filtering a concatenation concatenates the filtered parts |
| Derive.IntegerFieldsSameShape | src/lib.rs:198-200 | the integer-field filter depends only on field names and types, not on attributes |
| Derive.IntegerFieldsHashAndArms | src/lib.rs:186-227 | for any field list, the hash fields name exactly the integer-typed fields, and arm i names integer field i with the `UInt` cast exactly for the unsigned names |
| Derive.ExpandHashAndArms | src/lib.rs:186-227 | hash fields and provider arms name exactly the integer-typed fields, in declaration order, and arm i is classed `UInt` exactly when its type's last segment is one of the six unsigned names |
| Derive.HashAndArmsIgnoreInvariants | src/lib.rs:186-200 | two structs whose fields agree on names and types get the same hash fields and arms, whether or not their fields carry invariants |
| Derive.ProviderAnswersIntegerFields | src/lib.rs:252-265 | the generated provider fails for a name exactly when no integer-typed field has that name, and then with "Unknown field" |
| Derive.EnforceChecksOf | src/lib.rs:150-157 | runtime checks built from a list of condition texts pass exactly when every text holds, and otherwise report the first text that fails |
| Derive.EnforceExpanded | src/lib.rs:150-157 | the generated `enforce_law` passes exactly when every entry of `INVARIANTS` holds, and otherwise reports the first failing one in declaration order |
| Derive.FieldConditionsStep | src/lib.rs:117-163 | after an error-free prefix, one more attribute is skipped when it is not an invariant, and otherwise appends its condition or stops with that condition's error |
| Derive.FieldLoop | src/lib.rs:100-165 | the attribute loop, with early returns from inside it, computes exactly `FieldConditions` |
| Derive.FieldsLoop | src/lib.rs:93-174 | the field loop, pushing into the invariant, check and field-info vectors, returns the first error or exactly the vectors of the functional definition |
| Derive.DeriveConstitution | src/lib.rs:79-282 | the imperative derive computes exactly `Expand` |
| Scenarios.TestStructExpansion | tests/no_panic_test.rs:4-8 | `TestStruct` expands to one invariant `self.val > 10`, one field info for `val`, `val` as the only hash field, one `Int` arm and one runtime check |
| Scenarios.NoPanicTest | tests/no_panic_test.rs:4-23 | for `TestStruct`, `val: 5` yields `InvariantViolation` for `self.val > 10` with empty values, `val: 15` yields `Ok`, and `val` is the only hashed and provided field, classed `Int` |
| Scenarios.BoundedValueExample | src/lib.rs:13-17 | a string-literal invariant records the literal's content, and a content that `parse_str` rejects is a literal syntax error |
| Scenarios.InvalidSyntaxRejected | tests/ui/invalid_syntax.rs:4-8 | tokens that `parse_args` rejects turn the derive into a compile error for the field `value` |

## Left out

- Token manipulation by `syn` and `quote`, spans, and the text of compile errors. These are foreign library calls. A compile error is an abstract `DeriveError` that names the stage, the field, and the text that failed.
- The grammars of `syn::Expr` and of the prover's expression parser. They are external, so each parser is an opaque predicate in `Derive.Parsers`.
- The exact spacing of a token rendering (`TokenStream::to_string`). An `ExprTokens` payload carries its rendering as given.
- Evaluating a condition on an instance, including any panic such an evaluation could raise. It is the opaque `holds` function.
- The SHA-256 hash and `to_le_bytes`. The model records only which fields are hashed, and in what order.
- The async `verify_with_context`, the SMT backend, and the boxing of the provider as a trait object. These involve concurrency and an external solver.
- The `Display` text of `ConstitutionError`. It is defined in `praborrow_core`, which is not part of this model.
- Failure of `parse_macro_input!`: the compiler hands a derive only well-formed items.
- `is_ident` on paths with a leading `::` or generic arguments. Attribute paths are plain segment lists.
- Qualified-self types (`<T as Trait>::U`). They are path types like any other.
- Provider.NarrowFieldsExact: takes `isize` and `usize` as 64-bit, the usual target width. On a 32-bit target the statement still holds but covers a smaller range.
- Enforce.EnforceLaw: checks are identified by their recorded text. Two invariants with the same text always evaluate alike.
