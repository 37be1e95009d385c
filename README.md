# fend's unit resolver and formatting bridge, in Dafny

This project models two pieces of the fend calculator's core.

**The prefix-aware unit resolver** (`core/src/units.rs`):

- `expr_unit` reads a unit table entry's definition text. It trims it and strips the `l@`, `lp@`, `s@` and `sp@` tags, which select a `PrefixRule`. It recognises the base-unit marker `!`, strips the alias marker `=`, evaluates the rest and, unless the entry is an alias or a long prefix, wraps the number as a unit named after the entry.
- `query_unit_internal` and `query_unit_internal_gnu` look a name up in the builtin table, then in the optional `gpl` table.
- `construct_prefixed_unit` multiplies a prefix and a base unit into one named unit.
- `query_unit` resolves an identifier in three stages:
  1. a quoted literal becomes a new base unit;
  2. otherwise the exact lookup is tried;
  3. otherwise every split into prefix and remainder is tried, left to right. The first split where both halves resolve ends the search, and interrupts and evaluation errors end it at once.

**The formatting bridge** (`core/src/num.rs`):

- `to_string` runs a renderer that may fail through `Display`. The renderer's result or its interrupt goes into one of two slots of an adapter object, and both are read back afterwards.
- The messages of `ValueTooLarge`, `IntegerPowerError` and `DivideByZero` are modelled exactly.

Files:

- `text.dfy` (module `Text`): the string operations the resolver uses. These are `str::trim`, `starts_with`/`ends_with` and the UTF-8 byte length `str::len`; a Rust `&str` is a sequence of Unicode scalar values.
- `units.dfy` (module `Units`): the data model, the specification functions and the imperative methods `ExprUnit` and `QueryUnit`.
  - `DefineUnit` and `Resolve` are the specification functions, and each method is proved equal to its function.
  - The collaborators are function-valued fields of `Env`, and fend's `Number` is the type parameter `N`. They are: the two unit tables, the `gpl` feature flag, the evaluator, `Number::new_base_unit`, `Number::mul` and `Number::create_unit_value_from_value`.
  - Every fallible collaborator yields a `Computed`: a value, an interrupt or an error message.
- `unit_laws.dfy` (module `UnitLaws`): the properties of the resolver. It also holds a worked example, a two-row table under which `km` resolves to 1000.
- `num.dfy` (module `Num`): the adapter class `Fmt`, the method `ToString` and the error messages.

Panics are preconditions, stated as exactly the inputs on which the source panics:

- `query_unit` calls `unwrap` on the first character of an empty identifier whose exact lookup missed.
- `construct_prefixed_unit` asserts, after the multiplication, that the prefix's singular equals its plural. It is reached only at the split that stops the scan, when both halves resolve with compatible rules.
- `NoPanic` is the condition under which neither happens: the identifier is a quoted literal, or its exact lookup ends the resolution, or it is non-empty and the scan is safe. `ScanSafe` and `StepSafe` state the scan part: every split the scan reaches is safe.
- `ToString::to_string` panics when `Display::fmt` reports an error, so `ToString` requires that the renderer does not end with a plain formatting error.

On wrapping, the model follows the code. `expr_unit` wraps the evaluated number exactly when the definition is not an alias and the rule is not `LongPrefix` (units.rs line 66).

## Model

| member | source | states |
|---|---|---|
| Text.Trim | core/src/units.rs:36 | the trimmed definition has no whitespace at either end |
| Text.TrimRemovesOnlyOuterWhitespace | core/src/units.rs:36 | the trimmed text is a slice of the definition with only whitespace before and after it |
| Text.TrimIdempotent | core/src/units.rs:36 | trimming twice is trimming once |
| Text.Utf8Len | core/src/units.rs:94 | the byte length `str::len` is between one and four bytes per character |
| Units.Lift | core/src/units.rs:65-67 | the `?` conversion keeps a value, keeps an interrupt as an interrupt and turns an error message into an evaluation error |
| Units.StripAlias | core/src/units.rs:62-64 | the alias flag is set iff the text starts with `=`, and the text is the marker (when present) followed by the rest |
| UnitLaws.ParseTagsShape | core/src/units.rs:37-53 | `ParseTags` removes text only from the front of the definition, and the rule stays NoPrefixesAllowed exactly when no tag was removed |
| UnitLaws.StripTagsShape | core/src/units.rs:37-53 | each test of a tag, from any index on, removes text only from the front and changes the rule exactly when it removes something |
| Units.StripDefinitionTags | core/src/units.rs:37-53 | the four conditional strips, in their fixed order, compute the tag parse `ParseTags` |
| Units.DefineTagged | core/src/units.rs:54-74 | after the tags, a defined unit carries the entry's names and the rule given to it; a failure is an interrupt or an evaluation error |
| Units.DefineStripped | core/src/units.rs:54-74 | the base-unit marker, alias stripping, evaluation and wrapping, step by step, compute `DefineTagged` |
| Units.ExprUnit | core/src/units.rs:29-75 | `expr_unit` computes `DefineUnit`, whose result keeps the entry's names and the rule parsed from the trimmed text, and whose errors are only interrupts and evaluation errors |
| Units.DefineUnit | core/src/units.rs:36-74 | a defined unit carries the entry's singular and plural and the rule selected by the tags; a failure is an interrupt or an evaluation error, never "not found" |
| Units.DefineEntry | core/src/units.rs:146 | `expr_unit` applied to a table row never fails with "not found" |
| Units.QueryInternalGnu | core/src/units.rs:138-160 | with the `gpl` feature and a row in the second table, the result is `expr_unit` of that row; otherwise, and only then, it is "not found" for the queried name |
| Units.QueryInternal | core/src/units.rs:162-173 | a row in the builtin table is defined by `expr_unit`; without one the answer is the second table's; "not found" for the queried name exactly when neither has a row |
| Units.ConstructPrefixedUnit | core/src/units.rs:77-87 | the result exists iff the product and the named unit exist; it is the unit named by the prefix's name and the base's singular and plural made from the product of the magnitudes; an interrupt or error of the multiplication, or else of the unit builder, is the result unchanged; the prefix's singular must equal its plural |
| Units.Compatible | core/src/units.rs:122-125 | only a prefix rule combines, a long prefix with a base allowing long prefixes and a short prefix with a base allowing short ones |
| Units.IsQuotedLiteral | core/src/units.rs:94 | the quoted form is a quote at both ends and at least three characters, which for this form is at least three bytes |
| Units.QuotedByteLength | core/src/units.rs:94 | with a quote at both ends, at least three bytes is the same as at least three characters |
| Units.SplitStep | core/src/units.rs:108-133 | a split point moves on exactly when the prefix is not found, or it is found and the remainder is not; when it stops, a non-hard failure names the whole identifier |
| Units.ScanSplits | core/src/units.rs:107-135 | exhausting the split points, or stopping at one, never yields "not found" for anything but the whole identifier |
| Units.Resolve | core/src/units.rs:89-136 | the value `query_unit` returns; "not found" always names the original identifier |
| Units.QueryUnit | core/src/units.rs:89-136 | the loop over split points, with its early returns, computes `Resolve` |
| UnitLaws.StripTagRun | core/src/units.rs:37-53 | a run of tags in test order is stripped in full and the last tag of the run decides the rule |
| UnitLaws.StripTagsDecompose | core/src/units.rs:37-53 | every tag parse is such a run: the text is the stripped tags followed by the rest, and the rest starts with no tag still to be tested |
| UnitLaws.ParseTagsCharacterised | core/src/units.rs:36-53 | both directions of the tag parse after trimming: runs parse to their last rule, and every parse is a run |
| UnitLaws.SingleTag | core/src/units.rs:38-53 | `l@`, `lp@`, `s@` and `sp@` select LongPrefixAllowed, LongPrefix, ShortPrefixAllowed and ShortPrefix and are removed |
| UnitLaws.Untagged | core/src/units.rs:37 | without a tag the rule is NoPrefixesAllowed and nothing is removed |
| UnitLaws.StackedTags | core/src/units.rs:38-49 | with `l@s@` stacked, both are removed and the later test decides |
| UnitLaws.TagOutOfOrder | core/src/units.rs:38-53 | a tag that appears after one tested later is left in the text |
| UnitLaws.BaseUnitMarker | core/src/units.rs:54-61 | the marker `!` gives a base unit of the entry's names and the parsed rule, whatever the evaluator and the unit builder do |
| UnitLaws.AliasAndWrapping | core/src/units.rs:62-74 | `=` is removed before evaluation; the number is wrapped as a unit named after the entry exactly when it is no alias and the rule is not LongPrefix, a failure of that wrapping is the result unchanged, and the number is kept as it is otherwise |
| UnitLaws.EvaluatorFailurePropagates | core/src/units.rs:65 | the evaluator's interrupt and errors come out of `expr_unit` unchanged |
| UnitLaws.QuotedLiteral | core/src/units.rs:94-96 | a quoted literal never panics, is a base unit named by the whole identifier, and changing the tables does not change the answer |
| UnitLaws.ExactLookupFirst | core/src/units.rs:97-105 | an exact hit is returned as it is, and so is a hard failure of the exact lookup, before any split and without a panic |
| UnitLaws.FirstStopDecides | core/src/units.rs:107-134 | the split points are scanned left to right and the first that does not move on decides |
| UnitLaws.AllSkipNotFound | core/src/units.rs:107-135 | when every remaining split moves on, the result is "not found" for the whole identifier |
| UnitLaws.FirstResolvingSplit | core/src/units.rs:121-130 | at the first split where both halves resolve, the pair is combined iff it is (LongPrefix, LongPrefixAllowed) or (ShortPrefix, ShortPrefixAllowed), and otherwise the original identifier is not found |
| UnitLaws.FirstHardFailure | core/src/units.rs:110-119 | an interrupt or evaluation error of either sub-lookup at the first split that stops is the result |
| UnitLaws.NoSplitResolves | core/src/units.rs:106-135 | after an exact miss, when every split moves on, the original identifier is not found |
| UnitLaws.ResolvedSplitWitness | core/src/units.rs:106-134 | conversely, a split search that succeeds found a compatible pair at a split before which every split moved on, and its result is that pair's construction |
| UnitLaws.KilometreExample | core/src/units.rs:97-130 | with a table of the short prefix `k` (1000) and the metre (a base unit taking short prefixes), `km` resolves to 1000 without panicking |
| Num.Fmt.constructor | core/src/num.rs:51-55 | both slots start empty |
| Num.Fmt.DisplayFmt | core/src/num.rs:37-48 | a result fills the result slot and fmt succeeds; an interrupt fills the error slot and fmt still succeeds; a formatting error is passed back and no slot changes; from empty slots at most one is filled |
| Num.ToString | core/src/num.rs:20-61 | a rendered result gives the written text and the result; an interrupt gives that interrupt |
| Num.FixedMessages | core/src/num.rs:85-101 | the exact texts of `IntegerPowerError` and `DivideByZero` |
| Num.IntegerPowerError.Message | core/src/num.rs:85-91 | a non-empty fixed sentence that no `ValueTooLarge` message starts like |
| Num.DivideByZero.Message | core/src/num.rs:97-101 | a non-empty fixed sentence that no `ValueTooLarge` message starts like |
| Num.ValueTooLarge.Message | core/src/num.rs:67-76 | the fixed lead followed by the bound's own text, which can be read back from the message |
| Num.MessagesIdentifyTheError | core/src/num.rs:67-101 | distinct errors give distinct messages, and two `ValueTooLarge` messages agree exactly when their bounds display alike |

## Left out

- The expression evaluator (`evaluate_to_value` with `expect_num`) is an abstract function from text to a value, an interrupt or an error message. `crate::eval` is not part of this model.
- The error of `evaluate_to_value` and of `Number`'s operations is taken to become `GetIdentError::EvalError`. `crate::scope` and `crate::error` are not part of this model.
- `Number` and its operations (`new_base_unit`, `mul`, `create_unit_value_from_value`) are abstract. The submodules of `num` are not part of this model.
- The builtin unit tables (`builtin`, `builtin_gnu`) are abstract lookups from a name and the short-prefix flag to an optional row. The `gpl` feature is a boolean.
- `UnitDef.value` holds a number directly, not a `Value`. `expr_unit` only ever stores a number there, so `construct_prefixed_unit`'s `expect_num` cannot fail and is not modelled.
- `crate::Context` and interrupt polling: an interrupt is one possible outcome of each abstract call, without its payload.
- Units.QueryUnit: split points are character indices into a sequence of characters, not byte offsets into UTF-8. The sequence of prefixes tried is the same.
- `std::fmt::Formatter` and `Cell`: a renderer is modelled by the text it writes and how it ends. `into_inner` is a read of the slot.
- Num.ValueTooLarge.Message: the bound's display is a total function, so the bound's own formatting failing (the `?` after `write!`) is not modelled.
- Case-insensitive lookup, Celsius/Fahrenheit mode and completions are not part of `query_unit` in `core/src/units.rs`, so they are not modelled.
