# Semantics derive: the variant-annotation resolver

`#[derive(Semantics)]` on a Rust enum produces an impl of `Semantics`. That impl has two methods:

- `name()` gives each variant a name;
- `index()` gives each variant an index.

Both come from `#[sem(name = "...", index = N)]` attributes on the variants. Where an attribute is missing, a default is used instead. This project models `on_enum`, the part of the derive macro that works out these names and indices, and it models the classifier for the annotation entries. It proves that the imperative loop of the macro computes a pure specification, and proves what that specification promises.

Files:

- `wrappers.dfy`: `Option`.
- `annotations.dfy`: how one `sem(...)` entry is classified as a `Name` or an `Index`, and how a list of entries is parsed.
- `resolver.dfy`: the data model and the specification functions:
  - `ExplicitOf` gives what one variant contributes, or its error;
  - `Resolution` gives the whole derivation.
  It also holds the two methods that follow the source's loops:
  - `ScanVariant` is the attribute loop and the annotation loop;
  - `OnEnum` is the variant loop with its `explicit_indices` counter.
  Both are proved equal to the specification.
- `properties.dfy`: the specification restated against independent definitions. These are the annotations a variant's first `sem` attribute holds, how many of each kind it holds, and how many variants carry an index. It also holds the success, failure, defaulting and all-or-nothing lemmas.
- `generated.dfy`: the `name()`/`index()` lookups of the emitted impl, and the proof that they return each variant's resolved entry.
- `derive_tests.dfy`: the enums of the repository's derive tests as lemmas about `Resolution`, together with the failure cases of the macro.

The snake-case conversion is a parameter `snake: string -> string` throughout. The test lemmas assume only the conversions the tests themselves fix.

Behaviour of the code that the model keeps as it is:

- A resolved name may be empty: `name = ""` is accepted and used verbatim.
- An explicit index is not range-checked by the macro. The Rust compiler rejects an oversized literal later, in the generated code.

## Model

| member | source | states |
|---|---|---|
| Annotations.ParseNameAnnot | semantics-derive/src/lib.rs:51-67 | a name annotation is recognised exactly when the key is `name` and the value a string literal, and yields that string |
| Annotations.ParseIndexAnnot | semantics-derive/src/lib.rs:76-92 | an index annotation is recognised exactly when the key is `index` and the value an integer literal, and yields that integer |
| Annotations.ParseAnnotation | semantics-derive/src/lib.rs:31-42 | an entry is a `Name(s)` iff it is `name = "s"`, an `Index(n)` iff it is `index = n`, and a parse failure otherwise (so `name = 5` fails: it is retried as an index annotation whose key is wrong) |
| Annotations.ParseListCorrect | semantics-derive/src/lib.rs:13-24 | a comma-separated list parses iff every entry classifies; the result has one annotation per entry, each the classification of its entry, in order |
| Annotations.ParseAnnotationsCorrect | semantics-derive/src/lib.rs:13-24 | an attribute's tokens parse iff they form a parenthesised list whose every entry classifies; the annotations are those entries, in order |
| Resolver.GetIdent | semantics-derive/src/lib.rs:120-124 | a path is an identifier iff it has no leading `::` and exactly one segment, and that segment is the identifier |
| Resolver.FirstSemCorrect | semantics-derive/src/lib.rs:119-124 | the attribute that is read is the first one whose path is exactly `sem`; none is read iff no attribute has that path |
| Resolver.ScanVariant | semantics-derive/src/lib.rs:116-149 | the attribute loop (with `continue` on other paths and `break` after the first `sem` one) and the annotation loop compute `ExplicitOf`; the counter grows by one exactly when an index is set |
| Resolver.OnEnum | semantics-derive/src/lib.rs:106-172 | the whole pass computes `Resolution`: it stops at the first failing variant, defaults each missing name to `snake(ident)` and each missing index to `k as u8`, and applies the all-or-nothing index check. Its loop invariant keeps `explicit_indices` equal to the number of processed variants with an index, which is never more than the variants seen |
| ResolverProperties.CollectCorrect | semantics-derive/src/lib.rs:129-146 | absorbing a list succeeds iff neither kind occurs twice; a failure names a kind that occurs at least twice; on success the name and index are exactly the ones in the list |
| ResolverProperties.ExplicitOfCorrect | semantics-derive/src/lib.rs:119-149 | one variant succeeds iff its first `sem` list parses and sets each kind at most once. The explicit name or index is one from that list, and an index is present iff the list has one. A parse error occurs iff the list does not parse; any other error is a duplicate of a kind set twice |
| ResolverProperties.ExplicitAllCorrect | semantics-derive/src/lib.rs:112-149 | the pass over the variants succeeds iff every variant does, with the results in declaration order; otherwise the reported error is that of the first variant that fails |
| ResolverProperties.CountMatches | semantics-derive/src/lib.rs:107-139 | after the pass, `explicit_indices` equals the number of variants that carry an `index` annotation |
| ResolverProperties.AllWellFormed | semantics-derive/src/lib.rs:119-149 | every variant succeeds iff every variant is well formed |
| ResolverProperties.ResolutionOk | semantics-derive/src/lib.rs:106-194 | the derivation succeeds iff every variant is well formed and either no variant or every variant carries an explicit index |
| ResolverProperties.ResolutionInconsistent | semantics-derive/src/lib.rs:169-172 | the inconsistent-indices error occurs iff every variant is well formed and `0 < explicit count < variant count`, and it reports those two numbers |
| ResolverProperties.FirstFault | semantics-derive/src/lib.rs:126-144 | the first ill-formed variant decides the failure. If its list does not parse, the result is a parse error (even if the list also repeats a kind); otherwise it is a duplicate for that variant, of a kind it sets twice |
| ResolverProperties.ResolvedNames | semantics-derive/src/lib.rs:131-134 | on success there is one entry per variant, in declaration order, with the variant's identifier; an explicit name is used verbatim, otherwise the name is `snake(ident)` |
| ResolverProperties.ResolvedIndices | semantics-derive/src/lib.rs:136-158 | on success an explicit index is used verbatim; otherwise the index is the position modulo 256 (`k as u8`) |
| ResolverProperties.IndicesAllOrNothing | semantics-derive/src/lib.rs:169-172 | on success either every variant carries an explicit index or every index is positional |
| ResolverProperties.SkipsOtherAttributes | semantics-derive/src/lib.rs:120-122 | attributes whose path is not exactly `sem` (another name, several segments, a leading `::`), placed before the rest, change nothing |
| ResolverProperties.IgnoresLaterAttributes | semantics-derive/src/lib.rs:148 | once there is a `sem` attribute, attributes after it, including further `sem` ones, change nothing |
| ResolverProperties.CountWhereExtremes | semantics-derive/src/lib.rs:169 | the count of variants with a property is zero iff none has it, and equals the number of variants iff all have it (the two ends of the `explicit_indices` check) |
| Generated.FindArm | semantics-derive/src/lib.rs:179-189 | a `match *self` selects the first arm for the variant; none is selected iff no arm names it |
| Generated.FindArmAt | semantics-derive/src/lib.rs:179-189 | an arm with no earlier arm for the same variant is the one selected |
| Generated.ArmsLookup | semantics-derive/src/lib.rs:179-189 | arms that name the variants in order, once each, answer `name()`/`index()` on every variant with its own arm, and nothing on any other identifier |
| Generated.LookupAgrees | semantics-derive/src/lib.rs:160-166 | on success (with distinct variant identifiers, as Rust requires) `name()` and `index()` return exactly each variant's resolved entry, and are undefined on any other identifier |
| DeriveTests.VertexPosition | semantics/tests/derive.rs:3-22 | unannotated `Position, Normal, Color` resolve to `position, normal, color` with indices 0, 1, 2 |
| DeriveTests.ExplicitName | semantics/tests/derive.rs:24-40 | `name = "foo"` and `name = "bar"` are used verbatim; `Nothing` becomes `nothing`; indices are positional |
| DeriveTests.ExplicitIndex | semantics/tests/derive.rs:42-59 | indices 14, 7, 0 are used verbatim, whatever the snake-case conversion; the names are that conversion of the identifiers |
| DeriveTests.ExplicitNameAndIndex | semantics/tests/derive.rs:61-71 | a name and an index in one list are both taken; `Nothing0` gets `nothing_0` and its explicit index 0 |
| DeriveTests.ExplicitNameAndIndexLookups | semantics/tests/derive.rs:73-82 | the derivation of that enum succeeds, and on its output `name()` and `index()` return `foo`/14, `bar`/7 and `nothing_0`/0 |
| DeriveTests.DuplicateName | semantics-derive/src/lib.rs:129-144 | a second `name` in one list aborts the whole derivation with a duplicate error and no arms |
| DeriveTests.ParseErrorBeforeDuplicate | semantics-derive/src/lib.rs:126-127 | the whole list is parsed before it is absorbed, so an unknown key after a repeated index gives a parse error |
| DeriveTests.NameWithIntegerIsParseError | semantics-derive/src/lib.rs:35-40 | `name = 5` is a parse error |
| DeriveTests.MixedIndices | semantics-derive/src/lib.rs:169-172 | an index on one of two variants fails with an inconsistent-indices error that reports 1 of 2 |
| DeriveTests.SkippedAttributes | semantics-derive/src/lib.rs:119-149 | a `doc` attribute and a `foo::sem` attribute are skipped, and a later `sem` attribute that repeats `name` is never read |
| DeriveTests.Collisions | semantics-derive/src/lib.rs:160-166 | two variants may resolve to the same name and index: no uniqueness check is made across variants |

## Left out

- Tokenising by `syn` (`parenthesized!`, `Punctuated::parse_terminated`, forking the parse stream) is not modelled. An attribute arrives as a list of `key = literal` entries or as tokens that the list grammar rejects.
- Code emission by `quote!` is not modelled. The output is the sequence of `(identifier, name, index)` arms, and `name()`/`index()` are lookups over it.
- The snake-case conversion of the `convert_case` crate is not modelled; it is the parameter `snake`, and its rules are not part of this model.
- OnEnum: an explicit index is an unbounded `nat`. Whether it fits `u8` is decided by the Rust compiler on the generated code, not by the macro.
- OnEnum: an index literal is a `nat`, so a negative literal such as `index = -1` cannot be written. If the `syn` version in use accepts a leading `-` in an integer literal, the macro would count that entry as an explicit index and leave the rejection to the Rust compiler, whereas here such an entry can only be written as a parse failure.
- Struct and union inputs are not modelled, because they panic with `todo!()` (semantics-derive/src/lib.rs:101-102).
- The `Semantics` and `HasSemantics` traits, the hand-written impl and the constant bindings of semantics/src/lib.rs are not modelled. They are type-level declarations with no logic.
- Error message texts are not modelled. Failures are the constructors `Duplicate`, `ParseError` and `InconsistentIndices`. The first two also carry the variant's identifier, which the macro's message does not name.
- Duplicate: it also carries the repeated kind, which the macro's message does not name either. When both kinds repeat in one list, it is the kind of the first entry, in list order, that repeats one already set.
- ParseError: it carries only the variant. The source position (span) and the message of `syn`'s parse error, which point at the offending entry, are not modelled.
- Resolver.ScanVariant: one iteration of the source's variant loop is split into this method and the caller `OnEnum`. An early `return` from the inner loops becomes an `Err` that `OnEnum` returns at once.
- Idempotence and determinism are not stated separately. Every operation here is a pure function of its inputs or a method proved equal to one.
