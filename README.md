# csvlint schema validation, modelled in Dafny

csvlint checks a CSV table against a schema. The schema declares fields. Each
field has a name and a constraint map with the keys `required`, `minLength`,
`maxLength`, `pattern`, `unique` and `type`. Two stateful Ruby classes do the work:

- `Csvlint::Field#validate_column(value, row, column)` checks one cell. It
  clears its error and warning lists, then runs the five constraint checks in
  a fixed order without stopping early. Finally it runs the type rule that
  `TYPE_VALIDATIONS` stores under the field's XML Schema type URI. An
  `ArgumentError` raised by that rule becomes an `invalid_type` error. The
  field keeps `@uniques`, the set of the values it has checked while its
  `unique` constraint is `true`; for any other field the set stays empty. The
  set lasts for the whole session and only grows.
- `Csvlint::Schema#validate_header(header)` matches each header name to the
  first declared field with the same name, ignoring case. It records the
  match in the `@fields_by_index` hash, which is never cleared. It reports
  `different_index_header`, `extra_header` and `missing_header`.
- `Csvlint::Schema#validate_row(values, row)` builds a working array of slots
  from the row. It hands every mapped slot to its field's `validate_column`
  and appends that field's errors and warnings in slot order. It adds
  `extra_column` and `missing_column` warnings.

The project has one module per concern:

- `Diagnostics` (`diagnostics.dfy`): `Option`, the diagnostic kinds, and the
  `Diagnostic(kind, category, row, column, content)` record.
- `Columns` (`columns.dfy`): `validate_column` as pure functions, with its
  lemmas. Included are the constraint record, the type-rule table with its
  URIs, and `ColumnErrors`, the errors a call leaves given the set of values
  seen before it.
- `Fields` (`field.dfy`): the class `Field`. Its `uniques`, `errors` and
  `warnings` fields are updated in place. Its methods are proved against
  `Columns`.
- `IndexMaps` (`index_map.dfy`): a Ruby Hash from positions to fields, with
  its insertion order:
  - `h[k] = v` is `Store`;
  - `h.key(v)` goes through `FirstKeyPos`.
- `Headers` (`header.dfy`): `validate_header` as functions of the declared
  fields and the header, with its lemmas.
- `Rows` (`row.dfy`): `validate_row` as functions of the row, the hash and
  the fields' states before the call, with its lemmas.
- `Schemas` (`schema.dfy`): the class `Schema`. Its hash and diagnostic
  lists are updated in place. Its loops are proved against `Headers` and
  `Rows`.
- `Scenarios` (`scenarios.dfy`): the schema scenarios of the repository's
  test suite (spec/schema_spec.rb), stated on the specification functions,
  with the two-column hash they share and its helpers, and one example of
  its own: an upper-case header name (`UpperCaseHeaderScenario`).

Ruby library behaviour is a `Library` parameter, passed to every validation:
`String#match`, `Integer()`, `Float()` and `URI.parse`. The ErrorCollector
mixin is modelled inline:

- `reset` assigns empty lists;
- `build_errors` and `build_warnings` append;
- `valid?` is `|errors| == 0`.

Three behaviours of the code are easy to misread, and the model keeps each
of them:

- A short row can produce errors. A missing slot is checked as `""`, so a
  `required` field whose slot is missing records `missing_value`
  (`Scenarios.ShortRowScenario`). The repository's own test at
  spec/schema_spec.rb:42-45 expects exactly this.
- The working array is as long as the longer of the row and the hash, not
  the row. The hash copy loop runs over `0 .. |hash|-1` whatever the hash's
  keys are. The slots below the hash's size copy the row. Every other slot is
  nil, even where the row has a value there. The model keeps all of this.
- Nothing makes the position-to-field mapping injective: two header
  positions can hold the same field. Each field is validated with the column
  after the first key that holds it, `@fields_by_index.key(field)+1`, and the
  model computes exactly that (`Rows.KeyColumn`). `Rows.FreshKeyColumn` shows
  that a field stored at a single position `i` gets column `i+1`.

## Model

| member | source | states |
|---|---|---|
| Columns.Lookup | lib/csvlint/field.rb:75 | A rule found in the table is stored there under the looked-up key. |
| Columns.LookupChecks | lib/csvlint/field.rb:75 | A hash lookup finds a rule stored under the key. It finds none exactly when no entry has that key. |
| Columns.TypeRuleRoundTrip | lib/csvlint/field.rb:10-44 | Looking up each rule's own XML Schema URI in TYPE_VALIDATIONS yields that rule. |
| Columns.TypeKeysDistinct | lib/csvlint/field.rb:10-44 | No two entries of TYPE_VALIDATIONS share a URI. |
| Columns.TypeRuleOf | lib/csvlint/field.rb:75 | `TYPE_VALIDATIONS[constraints["type"]]`, nil for an absent type: a rule found is the one for the map's type URI. |
| Columns.BooleanValue | lib/csvlint/field.rb:20-22 | The boolean lambda's conversion: `true` for "true" and "1", `false` for "false" and "0", a failure for any other value, nil included. |
| Columns.RequiredFails | lib/csvlint/field.rb:55-57 | `missing_value` is recorded exactly when `required` is `true` and the value is nil or empty. |
| Columns.MinLengthFails | lib/csvlint/field.rb:58-60 | `min_length` is recorded exactly when a minLength is set and the value is nil or shorter. |
| Columns.MaxLengthFails | lib/csvlint/field.rb:61-63 | `max_length` is recorded exactly when a maxLength is set and a non-nil value is longer. |
| Columns.PatternFails | lib/csvlint/field.rb:64-66 | `pattern` is recorded exactly when a pattern is set and a non-nil value does not match it. |
| Columns.UniqueFails | lib/csvlint/field.rb:67-69 | `unique` is recorded exactly when `unique` is `true` and the value was checked before. |
| Columns.TypeFails | lib/csvlint/field.rb:75-82 | `invalid_type` is recorded exactly when the field has a type rule and the rule's outcome is not acceptance. |
| Columns.TypeRuleFor | lib/csvlint/field.rb:75 | `TYPE_VALIDATIONS[uri]`: a rule found is the one whose own URI is `uri`. |
| Columns.RunRule | lib/csvlint/field.rb:11-43 | Only the `anyURI` and integer-range lambdas record `invalid_type` themselves; the `anyURI` lambda never raises `ArgumentError`. |
| Columns.UnknownTypeUri | lib/csvlint/field.rb:75-77 | A URI other than the nine keys selects no rule. |
| Columns.ColumnErrors | lib/csvlint/field.rb:53-86 | The errors one call leaves, given the values seen before it: at most six, one per check. |
| Columns.ColumnErrorsChecks | lib/csvlint/field.rb:53-86 | A call records only `schema` entries for its own row and column, in check order, so each kind at most once. Each check's entry is present exactly when that check fails: required, minLength, maxLength, pattern, unique, type. |
| Columns.ReportsInCheckOrder | lib/csvlint/field.rb:55-83 | The six reports, concatenated in the order the checks run, are in check order. |
| Columns.ReportsPresence | lib/csvlint/field.rb:55-83 | Each kind's entry is in the concatenated reports exactly when its check failed. |
| Columns.InCheckOrderAtMostOnce | lib/csvlint/field.rb:55-83 | Entries in check order never repeat; an entry present occurs exactly once. |
| Columns.UniquesAfter | lib/csvlint/field.rb:67-73 | The seen-value set only grows, by at most the checked value. It holds the value afterwards exactly when it held it before or `unique == true`. |
| Columns.RequiredRejectsEmpty | lib/csvlint/field.rb:55-57 | With `required == true`, a nil or empty value makes the errors non-empty, with `missing_value` first. |
| Columns.NilValueChecks | lib/csvlint/field.rb:58-66 | A nil value never records `max_length` or `pattern`. It records `min_length` exactly when a minLength is set. |
| Columns.UniqueTracking | lib/csvlint/field.rb:67-73 | With `unique == true`, a new value records no `unique` error and is added to the set. A value seen before records exactly one `unique` error and leaves the set unchanged. |
| Columns.RepeatedValueIsUnique | lib/csvlint/field.rb:67-73 | The same value checked twice passes the uniqueness check the first time and records `unique` exactly once the second time. |
| Columns.InvalidTypeCount | lib/csvlint/field.rb:75-83 | `invalid_type` is present exactly when the type rule does not accept the value, and then exactly once. |
| Columns.SignRuleChecks | lib/csvlint/field.rb:24-43 | For the four integer-range types, a parsed value records `invalid_type` exactly when it breaks the sign policy (`<= 0`, `< 0`, `>= 0`, `> 0`). An unparsable value records it exactly once. |
| Columns.BooleanRuleChecks | lib/csvlint/field.rb:19-23 | `true`, `1`, `false` and `0` record no `invalid_type`. Any other value, nil included, records it exactly once. |
| Columns.ConversionRuleChecks | lib/csvlint/field.rb:11-18 | `int`, `float` and `double` record `invalid_type` exactly once when the conversion raises, and never otherwise. `anyURI` records it exactly once for a parsed URI that is neither HTTP nor HTTPS. |
| Columns.NoTypeRuleNoTypeError | lib/csvlint/field.rb:75-77 | An absent or unknown type cannot crash a call and records no `invalid_type`. |
| Columns.NoConstraintsAcceptEverything | lib/csvlint/field.rb:46-51 | A field built with a nil constraint map has no type rule. It records no error for any value and never remembers a value. |
| Fields.Field.constructor | lib/csvlint/field.rb:46-51 | Stores the name and the constraint map, with `{}` for nil, and resolves the type rule. It starts with no seen values and empty diagnostics. |
| Fields.Field.ValidateColumn | lib/csvlint/field.rb:53-86 | The errors become `ColumnErrors` of the set seen before the call. The set becomes `UniquesAfter`. The warnings are empty. The result is true exactly when no error was recorded. |
| Fields.Field.CheckConstraints | lib/csvlint/field.rb:55-73 | The errors of the five constraint checks, each report in check order, and the updated seen-value set. |
| Fields.Field.ApplyTypeRule | lib/csvlint/field.rb:75-83 | Appends one `invalid_type` exactly when the field's type rule does not accept the value. |
| Fields.Field.CallTypeRule | lib/csvlint/field.rb:10-44 | The lambda records `invalid_type` itself exactly when its outcome is flagged. It raises exactly when its outcome is raised. |
| IndexMaps.Store | lib/csvlint/schema.rb:24 | `h[k] = v`: `k` maps to `v` and every other key is unchanged. A new key goes to the end of the insertion order; an existing key keeps its place. |
| IndexMaps.FirstKeyPos | lib/csvlint/schema.rb:51 | `h.key(v)`: the first key in insertion order whose value is `v`. There is none exactly when no key holds `v`. |
| IndexMaps.KeyIsSmallest | lib/csvlint/schema.rb:51 | When keys were stored in increasing order, `h.key(v)` is at most any key that holds `v`. |
| Headers.Lower | lib/csvlint/schema.rb:22 | `downcase` on ASCII: same length, each upper-case ASCII letter turned into its lower-case partner, every other character kept. |
| Headers.SameName | lib/csvlint/schema.rb:22 | `a.downcase == b.downcase`: equal names match, and matching names have the same length. |
| Headers.SameNameIff | lib/csvlint/schema.rb:22 | Two names match exactly when they have the same length and differ at each position at most in ASCII letter case. |
| Headers.MatchIndex | lib/csvlint/schema.rb:22 | `fields.find` as a position: one found is a position of the declared fields. |
| Headers.MatchIndexFirst | lib/csvlint/schema.rb:22 | `fields.find` finds the first field whose name equals the header name after `downcase`. It finds none exactly when no name matches. |
| Headers.FirstIndexOf | lib/csvlint/schema.rb:36 | `fields.index(field)` is the first position holding that very field. |
| Headers.HeaderMap | lib/csvlint/schema.rb:21-24 | The header loop's hash: no earlier key is removed, and every new key is a header position. |
| Headers.MissingHeaderError | lib/csvlint/schema.rb:28 | The `missing_header` error carries no row and no content, and the declared field's name in the column slot. |
| Headers.HeaderWarning | lib/csvlint/schema.rb:25-36 | A header warning carries no row, the 1-based column `i+1` and the header name (or field name) as content. |
| Headers.StepErrors | lib/csvlint/schema.rb:26-28 | One header position records at most one error. |
| Headers.StepWarnings | lib/csvlint/schema.rb:22-31 | One header position records at most one warning. |
| Headers.HeaderErrors | lib/csvlint/schema.rb:21-31 | The loop over `n` header names records at most `n` errors. |
| Headers.HeaderWarnings | lib/csvlint/schema.rb:21-33 | The loop over `n` header names records at most `n` warnings. |
| Headers.MissingHeaderWarnings | lib/csvlint/schema.rb:35-37 | The `missing_header` loop over `n` declared fields records at most `n` warnings. |
| Headers.HeaderMapOrdered | lib/csvlint/schema.rb:21-24 | The header loop keeps the hash's insertion order a duplicate-free list of its keys. |
| Headers.HeaderMapKeys | lib/csvlint/schema.rb:21-24 | After the loop the hash's keys are the earlier keys plus exactly the positions whose name matches a field. |
| Headers.HeaderMapValues | lib/csvlint/schema.rb:21-24 | A matched position holds the first matching field. Every other key keeps its earlier value. |
| Headers.FreshHeaderMapIncreasing | lib/csvlint/schema.rb:21-24 | On an empty hash the loop stores the keys in increasing order, all below the header length. |
| Headers.HeaderErrorsExact | lib/csvlint/schema.rb:26-28 | The errors are exactly the `missing_header` errors, named by the declared field, at positions whose name matches nothing while `fields[i]` has a truthy `required`. |
| Headers.HeaderErrorsNone | lib/csvlint/schema.rb:26-28 | Without such a position the loop records no error. |
| Headers.HeaderValidIff | lib/csvlint/schema.rb:18-40 | The header loop records no error exactly when no position holds an unmatched name where a required field is declared. Warnings play no part. |
| Headers.HeaderWarningKept | lib/csvlint/schema.rb:21-33 | A warning recorded at one position stays in the loop's warnings. |
| Headers.HeaderWarningsNone | lib/csvlint/schema.rb:21-33 | If no position records a warning, the loop has no warnings. |
| Headers.HeaderWarningOrigin | lib/csvlint/schema.rb:21-33 | Every warning of the loop carries column `i+1` of the position `i` that recorded it. |
| Headers.ExtraHeaderIff | lib/csvlint/schema.rb:26-31 | An `extra_header` warning at column `i+1`, with the name as content, is present exactly when name `i` matches no field and `fields[i]` is absent or not required. |
| Headers.MatchedHeader | lib/csvlint/schema.rb:21-37 | A matched name records `different_index_header` at `i+1` exactly when it differs from `fields[i].name`, the field declared there and not the one matched. It records no `extra_header` and no error. The field it matched is a value of the hash and gets no `missing_header` warning. |
| Headers.MissingHeaderWarningsExact | lib/csvlint/schema.rb:35-37 | Each declared field absent from the hash's values gets a `missing_header` warning. The warning is at the column after its first position and carries its name. There are no other such warnings. |
| Headers.MissingHeaderColumnsBelow | lib/csvlint/schema.rb:35-37 | The warnings for the first `n` fields are at columns up to `n`. |
| Headers.MissingHeaderNoRepeats | lib/csvlint/schema.rb:35-37 | When no field object is declared twice, no `missing_header` warning is recorded twice. |
| Headers.MissingHeaderWarningsOnce | lib/csvlint/schema.rb:35-37 | When no field object is declared twice, each field absent from the hash's values gets exactly one `missing_header` warning, at the column after its position. |
| Headers.MissingHeaderWarningsNone | lib/csvlint/schema.rb:35-37 | When every declared field is mapped, there is no `missing_header` warning. |
| Headers.HeaderErrorAbsent | lib/csvlint/schema.rb:26-28 | No position declaring a field of another name records the error naming `name`. |
| Headers.HeaderErrorsNoRepeats | lib/csvlint/schema.rb:21-31 | When no two declared fields are spelled alike, no header error is recorded twice. |
| Headers.MissingRequiredHeaderReported | lib/csvlint/schema.rb:26-37 | A required field whose header name is wrong, and that no other name matches, gets both a `missing_header` error and a `missing_header` warning. When no two declared fields are spelled alike, the error is recorded exactly once. |
| Headers.CaseInsensitiveMatches | lib/csvlint/schema.rb:22 | With names distinct ignoring case, a header whose names equal the declared ones ignoring case matches each name to its own position. |
| Headers.CaseInsensitiveMapping | lib/csvlint/schema.rb:21-37 | Such a header maps every position to its own field and leaves no `missing_header` warning. |
| Headers.CaseInsensitiveDiagnostics | lib/csvlint/schema.rb:21-33 | Such a header records no error and no `extra_header`. Its only warnings are `different_index_header`, one exactly at each position whose name differs from the declared one in case. |
| Headers.ExactHeader | lib/csvlint/schema.rb:21-37 | A header that lists the declared names in order maps every position to its own field and records no error or warning. |
| Rows.Slots | lib/csvlint/schema.rb:44-46 | The working array is at least as long as the row and the hash, and a slot holding a value holds the row's value at that position. |
| Rows.SlotErrors | lib/csvlint/schema.rb:49-52 | The `validate_column` call for one mapped slot records at most six errors. |
| Rows.ExtraColumnWarning | lib/csvlint/schema.rb:55 | The `extra_column` warning carries the row and the 0-based slot position as its column, and no content. |
| Rows.MissingColumnWarning | lib/csvlint/schema.rb:60 | The `missing_column` warning carries the row, the 1-based column `j+1` and the field's name. |
| Rows.RowStep | lib/csvlint/schema.rb:48-57 | One pass of the slot loop only appends errors and warnings, and an unmapped slot changes no field state and no error. |
| Rows.MissingColumnWarnings | lib/csvlint/schema.rb:59-61 | The loop over `n` declared fields records at most `n` warnings. |
| Rows.KeyColumn | lib/csvlint/schema.rb:51 | The column passed for a mapped slot is `key(field)+1`: one more than a key that holds the same field. |
| Rows.KeyColumnFirst | lib/csvlint/schema.rb:51 | That key is the first key in insertion order that holds the field, as `Hash#key` returns. |
| Rows.RowScan | lib/csvlint/schema.rb:48-57 | The loop over the slots keeps a state for every mapped field. |
| Rows.SlotsShape | lib/csvlint/schema.rb:44-46 | The working array is as long as the longer of the row and the hash. Slot `i` copies `values[i]` when `i` is below the hash's size. A row value at a later position is dropped and its slot is nil. |
| Rows.RowErrorsAreColumnErrors | lib/csvlint/schema.rb:48-57 | Every row error is a column-check entry carrying the row number and no content. |
| Rows.RowErrorsStep | lib/csvlint/schema.rb:48-57 | The row errors after slot `n-1` are those before it, followed by that slot's `validate_column` errors when the slot is mapped. |
| Rows.RowValidIfSlotsPass | lib/csvlint/schema.rb:48-63 | If every mapped slot's column check passes, the row has no errors. |
| Rows.SlotErrorInvalidatesRow | lib/csvlint/schema.rb:48-63 | One mapped slot with an error makes the row invalid. |
| Rows.RowValidIff | lib/csvlint/schema.rb:48-63 | The row has no error exactly when every mapped slot's check passes, each on the field states its predecessors left. |
| Rows.RowWarningsStep | lib/csvlint/schema.rb:48-57 | The warnings after slot `n-1` are those before it, then an `extra_column` warning when the slot is unmapped. |
| Rows.ExtraColumnWarnings | lib/csvlint/schema.rb:54-56 | The `extra_column` warnings of the unmapped slots, in slot order. |
| Rows.RowWarningsExact | lib/csvlint/schema.rb:48-57 | The slot loop's warnings are exactly `ExtraColumnWarnings` of the positions that are not keys. |
| Rows.ExtraColumnAbsent | lib/csvlint/schema.rb:54-56 | A mapped slot, or one past the loop, has no `extra_column` warning. |
| Rows.ExtraColumnPresent | lib/csvlint/schema.rb:54-56 | An unmapped slot within the loop has its `extra_column` warning. |
| Rows.ExtraColumnNoRepeats | lib/csvlint/schema.rb:54-56 | No `extra_column` warning is recorded twice. |
| Rows.ExtraColumnsKept | lib/csvlint/schema.rb:54-56 | Every unmapped slot `i` records exactly one `extra_column` warning at the 0-based column `i`. |
| Rows.ExtraColumnsOnly | lib/csvlint/schema.rb:54-56 | The slot loop's warnings are only those `extra_column` warnings, at unmapped positions. |
| Rows.RowUniquesGrow | lib/csvlint/schema.rb:48-57 | Over a row, every field's seen-value set only grows. A field that no slot maps to is left as it was. |
| Rows.FreshKeyColumn | lib/csvlint/schema.rb:51 | A field held by the single key `i` is validated with column `i+1`, whatever order the keys were stored in. |
| Rows.FreshHeaderKeyColumn | lib/csvlint/schema.rb:51 | After one `validate_header` on a fresh schema, a field is validated with the column after the smallest header position that holds it. |
| Rows.MissingColumnsKept | lib/csvlint/schema.rb:59-61 | Declared field `j` whose slot is nil or past the array gets exactly one `missing_column` warning at `j+1` with its name. |
| Rows.MissingColumnsOnly | lib/csvlint/schema.rb:59-61 | The `missing_column` warnings are only those. |
| Schemas.BuildValuesArray | lib/csvlint/schema.rb:44-46 | The array built in place is the working array `Slots` of the row and the hash's size. |
| Schemas.Schema.constructor | lib/csvlint/schema.rb:9-16 | Stores uri, fields, title and description. It starts with an empty hash and empty diagnostics. |
| Schemas.Schema.ValidateHeader | lib/csvlint/schema.rb:18-40 | The hash becomes `HeaderMap` of the earlier hash. The errors are the loop's. The warnings are the loop's, then the `missing_header` warnings. The result is true exactly when there is no error. The insertion order stays a list of the keys. |
| Schemas.Schema.CheckHeaderName | lib/csvlint/schema.rb:22-31 | Name `i`: stored when it matches, or else a missing required header or an extra one. The diagnostics grow by that position's entries. |
| Schemas.Schema.WarnMissingHeaders | lib/csvlint/schema.rb:35-37 | Appends exactly the `missing_header` warnings for the fields the hash does not hold. |
| Schemas.Schema.ValidateRow | lib/csvlint/schema.rb:42-64 | Errors and `extra_column` warnings are those of `RowScan` from the field states before the call. The `missing_column` warnings follow. Every mapped field is left in the state `RowScan` gives it. The result is true exactly when there is no error. |
| Schemas.Schema.ScanRow | lib/csvlint/schema.rb:43-63 | Runs the body of `validate_row`, starting from the given field states. |
| Schemas.Schema.ScanSlots | lib/csvlint/schema.rb:44-57 | Builds the working array and runs the slot loop, ending in `RowScan` over all slots. |
| Schemas.Schema.ScanSlot | lib/csvlint/schema.rb:48-57 | One pass of the slot loop advances the diagnostics and field states by one step of `RowScan`. |
| Schemas.Schema.CheckSlot | lib/csvlint/schema.rb:49-56 | A mapped slot runs its field's `validate_column` with the slot's value (`""` for nil), the row and `key+1` and appends that field's errors and warnings. An unmapped slot appends `extra_column`. |
| Schemas.Schema.WarnMissingColumns | lib/csvlint/schema.rb:59-61 | Appends exactly the `missing_column` warnings for the declared fields whose slot is nil. |
| Scenarios.TwoColumnsKeys | lib/csvlint/schema.rb:51 | In a hash of two distinct fields at keys 0 and 1, the fields are validated with columns 1 and 2. |
| Scenarios.TwoColumnsHeader | lib/csvlint/schema.rb:21-24 | A header of two declared names that differ ignoring case, read on an empty hash, leaves the hash `TwoColumns` the row scenarios use. |
| Scenarios.ExactHeaderScenario | spec/schema_spec.rb:20-24 | Header `["field", "field2"]` leaves the hash `TwoColumns`: both fields at their own positions. It reports nothing. |
| Scenarios.MinimumRequiredHeaderScenario | spec/schema_spec.rb:36-39 | Header `["minimum", "required"]` leaves the hash `TwoColumns` and reports nothing. |
| Scenarios.UpperCaseHeaderScenario | lib/csvlint/schema.rb:21-37 | Header `["MINIMUM", "required"]` is valid and maps both fields. Its only warning is `different_index_header` for "MINIMUM" at column 1. |
| Scenarios.CompleteRowScenario | spec/schema_spec.rb:41 | Row `["abc", "x"]` has no error. |
| Scenarios.NilCellRowScenario | spec/schema_spec.rb:42 | Row `["abc", nil]` has exactly one error, `missing_value` at column 2. |
| Scenarios.ShortCellRowScenario | spec/schema_spec.rb:46-48 | Row `["f", "f"]` has exactly one error, `min_length` at column 1. |
| Scenarios.InvalidRowScenario | spec/schema_spec.rb:26-30 | Row `["", "x"]` has exactly two errors: `missing_value` at column 1, then `min_length` at column 2. |
| Scenarios.ValidRowScenario | spec/schema_spec.rb:31 | Row `["present", "123"]` has no error. |
| Scenarios.ShortRowScenario | spec/schema_spec.rb:43-45 | Row `["abc"]` against a required second field has exactly one error, `missing_value` at column 2. |
| Scenarios.FewerColumnsScenario | spec/schema_spec.rb:51-66 | Row `["abc"]` at row 1 has no error and one `missing_column` warning at column 2. |
| Scenarios.ExtraColumnsMappedSlots | spec/schema_spec.rb:68-86 | In that four-value row, the two mapped slots pass their checks and record nothing. |
| Scenarios.ExtraColumnsScenario | spec/schema_spec.rb:68-86 | A four-value row at row 1 has no error and two `extra_column` warnings, at columns 2 and 3. |
| Scenarios.WrongHeaderScenario | spec/schema_spec.rb:97-104 | Header `["wrong", "required"]` is valid. It records an `extra_header` warning for "wrong" at column 1, then a `missing_header` warning for `minimum`. |

## Left out

- `Schema.from_json_table` and `Schema.load_from_json_table` (lib/csvlint/schema.rb:66-82) are not modelled:
  - they parse JSON and fetch a document over the network, with a catch-all rescue;
  - `from_json_table` also passes four arguments to the two-argument `Field.new`.
  
  Schemas are built from an explicit field list instead.
- lib/csvlint/error_collector.rb is not part of this model. `reset`, `build_errors`, `build_warnings` and `valid?` are modelled inline, as described above.
- Ruby's `String#match`, `Integer()`, `Float()` and `URI.parse` are the `Library` parameter. Their parsing rules, and float and double semantics, are not modelled.
- Crash paths are preconditions; each would raise an exception that `validate_column` does not rescue:
  - `Columns.ColumnSafe` excludes `Integer(nil)` and `Float(nil)`, which raise TypeError. These can only come from a direct nil call, since `validate_row` passes `value || ""`.
  - `Columns.ColumnSafe` also excludes an `URI.parse` that raises `URI::InvalidURIError`.
  - `Headers.HeaderSafe` excludes a matched header name at a position past the declared fields, where `fields[i].name` fails on nil.
  - `Rows.RowSafe` lifts `Columns.ColumnSafe` to every mapped slot of a row.
- One more crash path is not modelled: an invalid `pattern`. `value.match(pattern)` at lib/csvlint/field.rb:65 would raise RegexpError on it, and nothing rescues that. `Library.regexMatch` is a total function here, so the model treats every pattern as compiling.
- Fields.Field.constructor: the `TYPE_VALIDATIONS[constraints["type"]]` lookup is made once, here, rather than on every `validate_column` call. The constraint map is never replaced, so every call's lookup gives the same rule.
- Field names are strings; a nil name, which would make `downcase` raise, is not modelled.
- Header cells are strings; a nil cell is not modelled. With declared fields, `name.downcase` at lib/csvlint/schema.rb:22 would raise NoMethodError on it. With no declared fields, it would get an `extra_header` warning with nil content.
- Headers.MissingRequiredHeaderReported: states the exactly-once count of the error only when no two declared fields share a name, because two such fields at unmatched required positions really record two identical errors.
- Headers.MissingHeaderWarningsOnce: states the exactly-once count only when no field object is declared twice, because `fields - @fields_by_index.values` keeps every copy of a repeated object, which then gets one warning per copy.
- Case-insensitive matching folds ASCII letters only. Ruby's Unicode case mapping in `downcase` is not modelled.
- The constraint values are modelled by kind:
  - `minLength` and `maxLength` are integers or absent. A float bound, which Ruby compares numerically with the length, is not modelled. Neither is a string or other non-numeric bound, whose comparison raises ArgumentError outside the `rescue` at lib/csvlint/field.rb:78-82;
  - `pattern` is a string or absent;
  - `required` and `unique` are `true`, `false`, absent or some other truthy value.
- `title` and `description` are only stored.
- Schemas.BuildValuesArray: the Ruby array is modelled as a sequence that the loop reassigns, because assigning past its end grows it.
- Schemas.Schema.ValidateRow states the field states through the `Tracks` predicate over the fields the hash holds. A declared field that the hash does not hold is outside its frame and is not mentioned.
