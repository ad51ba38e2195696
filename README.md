# go-requiring in Dafny

A model of `go-requiring`, a small Go library that validates records. A
caller builds a rule registry (`RuleSet`) once. For each rule it points at a
field of a zero-valued template record and lists the validators for that
field. The registry finds the field by the pointer's offset from the
template's address. `Validate` then runs every rule on the matching field of
a real record and collects one name-prefixed error per failing validator.
The validators modelled are the length family (`MinLength`, `MaxLength`,
`Length`), which count runes rather than bytes, and the non-empty check.

Files:

- `wrappers.dfy` (`Wrappers`): `Option` (Go's nil or a value), `Result`
  and `Outcome`. A Go panic is a `Failure` or `Fail` carrying the panic
  message.
- `decimal.dfy` (`Decimal`): how Go's `%v` writes an `int`, plus its
  inverse parser. This lets the model state that a default message carries
  its threshold.
- `utf8.dfy` (`Utf8`): Go strings as byte sequences, and Go's `[]rune(s)`
  conversion, using the acceptance rules of Go's `utf8.DecodeRune`. Every
  byte that does not start a well-formed sequence decodes to one
  `RuneError`. Also UTF-8 encoding and the round trip
  `Runes(Encode(rs)) == rs`.
- `length.dfy` (`LengthFamily`): `length.go`. The validators never change
  once built, because `WithPrinter` returns a changed copy. So each validator
  and each violation is a datatype value. A printer is a function from the
  violation's public data (`Value`, `Min`/`Max`) to the text it writes. A
  violation keeps the validator that produced it, because `Error()` reads
  that validator's printer.
- `requiring.dfy` (`Requiring`): `validator.go`.
  - `Validator` is a closed union of the validator kinds above, and
    `Violation` is the union of their violations.
  - `Rule.Validate` is a loop that appends, proved equal to the reference
    function `Collect`.
  - `RuleSet` is a class whose `rules` field is `None` (Go's nil map) until
    the first `Add`.
  - `LookupStructField` is the linear search, and `Struct` replays a
    sequence of `Add` calls.
  - A record type is its table of visible fields, each an
    `(offset, index path)` pair. A record instance is a map from index path
    to field value.
  - Addresses are `uintptr` values as on a 64-bit platform, so `OffsetOf`
    wraps modulo 2^64 when the pointer lies below the template's address.

Three behaviours of the code worth knowing:

- The comment on `RangeMinViolationError` says a zero or negative bound
  means "unlimited". No code acts on it, so it is not modelled.
- `notEmptyValidator.SetPrinter` stores a printer that nothing reads.
  `RangeMinViolationError.Error` always prints `requires`.
- If two visible fields share an offset, field lookup takes the first of
  them rather than rejecting the ambiguity.

## Model

| member | source | states |
|---|---|---|
| `LengthFamily.MinLength` | length.go:9-13 | the factory sets only the threshold; the printer is unset (nil) |
| `LengthFamily.MinLengthValidator.WithPrinter` | length.go:20-24 | the copy keeps `min`, holds exactly the given printer (possibly nil), and fails on exactly the same strings; its violations render `q(Value, Min)` for a printer `q` and the default text for nil; the receiver is an unchanged value |
| `LengthFamily.MinLengthValidator.WithPrinterFunc` | length.go:26-32 | the copy keeps `min`, fails on the same strings, and its violations render `fn(Min)` |
| `LengthFamily.MinLengthValidator.Validate` | length.go:34-45 | a violation exactly when the rune count is below `min`; it carries the input, `min` and the producing validator |
| `LengthFamily.MinLengthViolation.Error` | length.go:53-61 | the producing validator's printer output when one is set, otherwise the default text |
| `LengthFamily.MinLengthDefault` | length.go:63-67 | "the length must be no less than " followed by exactly `%v` of `min`: the canonical decimal (sign only for negatives, no leading zero), which parses back to `min` |
| `LengthFamily.MaxLength` | length.go:79-83 | the factory sets only the threshold; the printer is unset |
| `LengthFamily.MaxLengthValidator.WithPrinter` | length.go:90-94 | the copy keeps `max`, holds exactly the given printer (possibly nil), and fails on the same strings; its violations render `q(Value, Max)` for a printer `q` and the default text for nil |
| `LengthFamily.MaxLengthValidator.WithPrinterFunc` | length.go:96-102 | the copy keeps `max`, fails on the same strings, and its violations render `fn(Max)` |
| `LengthFamily.MaxLengthValidator.Validate` | length.go:104-115 | a violation exactly when the rune count exceeds `max`; it carries the input, `max` and the validator |
| `LengthFamily.MaxLengthViolation.Error` | length.go:123-131 | the printer's output when set, otherwise the default text |
| `LengthFamily.MaxLengthDefault` | length.go:133-137 | "the length must be no greater than " followed by exactly `%v` of `max`, which parses back to `max` |
| `LengthFamily.Length` | length.go:149-154 | the factory sets only both thresholds; the printer is unset |
| `LengthFamily.LengthValidator.WithPrinter` | length.go:161-165 | the copy keeps both thresholds, holds exactly the given printer (possibly nil), and fails on the same strings; its violations render `q(Value, Min, Max)` for a printer `q` and the default text for nil |
| `LengthFamily.LengthValidator.WithPrinterFunc` | length.go:167-173 | the copy keeps both thresholds, fails on the same strings, and its violations render `fn(Min, Max)` |
| `LengthFamily.LengthValidator.Validate` | length.go:175-187 | no violation exactly when `min <= count <= max`, inclusive at both ends; a violation carries the input, both thresholds and the validator |
| `LengthFamily.LengthViolation.Error` | length.go:195-203 | the printer's output when set, otherwise the default text |
| `LengthFamily.LengthDefault` | length.go:205-209 | "the length must be in range(", `%v` of `min`, " ... ", `%v` of `max`, then ")"; each number is the canonical decimal and parses back to its threshold |
| `LengthFamily.LengthDefaultInjective` | length.go:207-209 | the default range text determines both `min` and `max` |
| `LengthFamily.CountsCharacters` | length.go:36-37 | on a well-formed string, all three validators compare the number of characters, not bytes (also lines 106-107 and 177-178) |
| `LengthFamily.MultiByteExample` | length.go:106-107 | a three-character, nine-byte string satisfies `MinLength(3)` and fails `MaxLength(2)` |
| `LengthFamily.CopyOnConfigure` | length.go:20-24 | configuring a printer on a copy leaves the violations of the validator it came from on the default text |
| `Utf8.Runes` | length.go:36 | `[]rune(s)` has at most as many runes as `s` has bytes, and is empty only for the empty string |
| `Utf8.DecodeEncodeRune` | length.go:36 | decoding the UTF-8 encoding of a scalar value gives it back, with the encoding's width |
| `Utf8.RunesEncode` | length.go:36 | `[]rune` of the encoding of scalar values gives back exactly those values |
| `Utf8.RuneCountEncode` | length.go:177 | the rune count of a well-formed string is its number of characters |
| `Utf8.ThreeMultiByteRunes` | length.go:106 | the nine bytes of "日本語" count as three runes |
| `Decimal.NatToString` | length.go:66 | the decimal form of a natural number is non-empty, all digits, and has no leading zero |
| `Decimal.IntToString` | length.go:66 | `%v` of an int starts with '-' exactly for negatives; all other characters are digits |
| `Decimal.ParseNatToString` | length.go:136 | parsing a natural number's decimal form gives the number back |
| `Decimal.ParseIntToString` | length.go:66 | parsing `%v` of an int gives the int back |
| `Decimal.IntToStringInjective` | length.go:208 | different thresholds print differently |
| `Requiring.RangeMinViolation.Error` | validator.go:108-125 | always "requires", whatever `Min`, `Max` and `Value` hold |
| `Requiring.NotEmptyValidator.constructor` | validator.go:146-148 | the shared non-empty validator starts with no printer |
| `Requiring.NotEmptyValidator.SetPrinter` | validator.go:131-133 | sets the printer field to exactly the given printer; nil (None) clears it |
| `Requiring.NotEmptyValidator.Validate` | validator.go:135-144 | a violation exactly for the empty string, with `Min` 1, `Max` 0 and `Value` the input |
| `Requiring.Validator.Validate` | validator.go:12-14 | fails exactly when the wrapped validator does: below `min` runes, above `max` runes, outside `[min, max]`, or the empty string for the non-empty check; a violation carries the value it was given |
| `Requiring.RuleError.Error` | validator.go:27 | the text is `'` + name + `' ` followed by exactly the wrapped violation's text |
| `Requiring.Collect` | validator.go:23-31 | a rule reports at most one error per validator, each under the rule's name and about the validated value |
| `Requiring.CollectEmptyIff` | validator.go:30 | a rule's report is empty (nil) exactly when every validator accepts |
| `Requiring.CollectCount` | validator.go:25-29 | the report has exactly one error per failing validator |
| `Requiring.CollectAppend` | validator.go:25-29 | with no early exit, two lists of validators report one list's errors followed by the other's, in order |
| `Requiring.Rule.Validate` | validator.go:23-31 | the loop returns exactly `Collect` of the rule's name, validators and value |
| `Requiring.OffsetOf` | validator.go:52-56 | the pointer's distance from the template's address, wrapping modulo 2^64 when the pointer lies below it |
| `Requiring.FirstAt` | validator.go:58-67 | the first field whose offset equals the requested one exactly; none exactly when no field has that offset |
| `Requiring.LookupStructField` | validator.go:58-67 | the search returns the first exact-offset field, or panics with "xxx" exactly when none matches |
| `Requiring.RulesPassIff` | validator.go:69-82 | all rules pass on a record exactly when every validator of every rule accepts its field |
| `Requiring.EmptyFieldFailsTwoRules` | validator.go:23-31 | an empty field under a three-rune rule and a non-empty rule fails both, with one error under each rule's name |
| `Requiring.RuleSet.constructor` | validator.go:84-89 | a new registry remembers the template's address and field table, and its rule map is nil |
| `Requiring.RuleSet.Add` | validator.go:38-50 | panics with "xxx" and stores nothing when the pointer matches no field; otherwise the map holds the rule under `name`, replacing any earlier one, and every other name keeps its rule |
| `Requiring.RuleSet.Validate` | validator.go:69-82 | on a record or a pointer to it: one non-empty entry per failing rule, equal to that rule's report; no entry for a passing rule; no two entries under one name; as many entries as failing rules; empty exactly when every rule passes |
| `Requiring.VisitRules` | validator.go:75-80 | the loop over the rule map, in any order, leaves each failing rule's report exactly once and nothing else |
| `Requiring.ReportsCount` | validator.go:75-80 | entries that are failing rules' reports, under distinct names, covering every failing rule, number exactly the failing rules |
| `Requiring.BuildTwoRules` | validator.go:38-50 | registering "a" and "b" at the template's only field stores both rules at offset 0 under their names |
| `Requiring.TwoRulesReport` | validator.go:69-82 | with those two rules, the result for an empty field has two entries, each a single error under "a" or "b" |
| `Requiring.EmptyFieldUnderTwoRules` | validator.go:84-92 | a registry built by `Struct` with those two rules, validating an empty field, returns two entries, each a single error under "a" or "b" |
| `Requiring.BuildFailsIff` | validator.go:38-40 | building fails exactly when some registration points at no field |
| `Requiring.BuildNames` | validator.go:41-49 | a built registry holds exactly the registered names |
| `Requiring.BuildLastWins` | validator.go:44-49 | each name maps to the rule of its last registration |
| `Requiring.Struct` | validator.go:84-92 | runs the registrations in order; the result exists exactly when `Build` succeeds and then holds `Build`'s rules; otherwise it is the "xxx" panic |

## Left out

- `Requiring.OffsetOf`: computes offsets modulo 2^64, as on a 64-bit platform. On a 32-bit platform `uintptr` wraps modulo 2^32. A wrapped offset is larger than any field offset in either case, so lookup fails the same way.
- `Requiring.RuleSet.Validate`: does not model rules on unexported fields. `reflect.VisibleFields` lists unexported fields too, so `Add` accepts a pointer to one. Go's `f.Interface()` (validator.go:77) then panics when `Validate` reads that field. The field table carries no exported flag, so the model validates such a field like any other.
- Reflection and memory layout (`reflect.ValueOf(...).Pointer()`, `reflect.VisibleFields`, `FieldByIndex`): the record type is given as its table of visible fields. The layout rules that compute the offsets, including padding and how promoted fields' offsets are reported, are not part of this model.
- Runtime type assertions (`v.(T)`) and the panic on a value of the wrong type: every validator takes a Go string, and the record's field values are strings.
- A registry used as a validator inside another registry, and validators other than the four kinds: `Validator` is a closed union, and field values are never records.
- The target of `RuleSet.Validate` is a record or a pointer to one. A nil pointer, a non-struct value, and a record lacking a rule's field (a type mismatch) are callers' wiring errors. They are excluded by the `requires` clause.
- `io.Writer`, `bytes.Buffer` and `fmt.Fprintf`: printing is a pure function that returns the text written.
- The text format of `errors.Join` (newline-joined): aggregated errors are sequences. A rule's report is a `seq<RuleError>`, and the registry's result holds one report per failing rule.
- Go's map iteration order: `RuleSet.Validate` visits names in an order chosen by `:|`, and its contract does not depend on that order.
- The `Offset` kept in each rule is stored but unused, as in the source.
- The package variable `NotEmpty` is a `NotEmptyValidator` made by its constructor, because the model has no globals. Its printer `p` is stored but never consulted, as in the source.
- `LengthViolationPrinterFunc` (length.go:215-219), the `printerFunc` adapter (not part of this model) and the `typedValidator` assertions: these are compile-time plumbing. A function printer is modelled directly as the lambda `WithPrinterFunc` installs.
- Go's `int` thresholds (32 or 64 bits, by platform): thresholds are unbounded integers. A rune count never exceeds the string's byte length, which fits in `int` on either width, so no comparison changes.
- A panic ends the program unless it is recovered. Here it is a `Failure`/`Fail` result that leaves the registry as it was, because the source panics before touching the map.
- Aliasing of the validator slice passed to `Add`: validators are values.
- The single-writer-then-readers concurrency contract.
