/** Scenarios taken from spec/schema_spec.rb, stated on the functions that
    `validate_header` and `validate_row` are proved against. Two helper lemmas,
    `TwoColumnsKeys` and `TwoColumnsHeader`, state what holds of the two-column
    hash those scenarios share. `UpperCaseHeaderScenario` is this module's own example
    and does not come from the test file. Fields are parameters described by
    what their constructor stores. */
module Scenarios {
  import opened Diagnostics
  import opened Columns
  import opened Fields
  import opened IndexMaps
  import opened Headers
  import opened Rows

  /** A field built as `Field.new(name, c)` with a constraint map `c` that
      names no type. */
  predicate Declared(f: Field, name: string, c: Constraints) {
    f.name == name && f.constraints == c && c.typeUri.None? && f.rule == None
  }

  function RequiredOnly(): Constraints {
    NoConstraints.(required := FlagTrue)
  }

  function MinLengthOnly(n: int): Constraints {
    NoConstraints.(minLength := Some(n))
  }

  function MaxLengthOnly(n: int): Constraints {
    NoConstraints.(maxLength := Some(n))
  }

  /** The hash one `validate_header` of the two declared names leaves. */
  function TwoColumns(f1: Field, f2: Field): (map<nat, Field>, seq<nat>) {
    (map[0 := f1, 1 := f2], [0, 1])
  }

  /** Under the hash of two distinct fields, each field is validated with
      its own 1-based column. */
  lemma TwoColumnsKeys(f1: Field, f2: Field)
    requires f1 != f2
    ensures Ordered(TwoColumns(f1, f2).0, TwoColumns(f1, f2).1)
    ensures KeyColumn(TwoColumns(f1, f2).0, TwoColumns(f1, f2).1, 0) == Some(Index(1))
    ensures KeyColumn(TwoColumns(f1, f2).0, TwoColumns(f1, f2).1, 1) == Some(Index(2))
  {
    var (m, order) := TwoColumns(f1, f2);
    assert Ordered(m, order);
    assert FirstKeyPos(m, order, f1) == Some(0);
    assert FirstKeyPos(m, order[1..], f2) == Some(0);
  }

  /** A header listing two declared names that differ even ignoring case,
      read by a fresh schema, leaves exactly the hash `TwoColumns`. */
  lemma TwoColumnsHeader(f1: Field, f2: Field)
    requires !SameName(f1.name, f2.name)
    ensures HeaderMap([f1, f2], [f1.name, f2.name], map[], [], 2) == TwoColumns(f1, f2)
  {
    var fields, header := [f1, f2], [f1.name, f2.name];
    assert SameName(fields[0].name, header[0]);
    assert MatchIndex(fields, header[0]) == Some(0);
    assert fields[1..] == [f2];
    assert SameName(fields[1..][0].name, header[1]);
    assert MatchIndex(fields[1..], header[1]) == Some(0);
    assert MatchIndex(fields, header[1]) == Some(1);
    assert HeaderMap(fields, header, map[], [], 0) == (map[], []);
    var e: map<nat, Field>, none: seq<nat> := map[], [];
    var one: map<nat, Field>, first: seq<nat> := e[0 := f1], [0];
    assert 0 !in e;
    assert Store(e, none, 0, f1).0 == one && Store(e, none, 0, f1).1 == first;
    assert HeaderMap(fields, header, map[], [], 1) == (one, first);
    assert 1 !in one;
    assert Store(one, first, 1, f2).0 == one[1 := f2];
    assert Store(one, first, 1, f2).1 == [0, 1];
    assert one[1 := f2] == map[0 := f1, 1 := f2];
  }

  /** Header `["field", "field2"]` for fields `field` and `field2`: each name
      is mapped to its own position, nothing is reported, and a fresh schema
      is left with the hash `TwoColumns`. */
  lemma ExactHeaderScenario(f1: Field, f2: Field, m: map<nat, Field>, order: seq<nat>)
    requires f1.name == "field" && f2.name == "field2"
    ensures HeaderMap([f1, f2], ["field", "field2"], map[], [], 2) == TwoColumns(f1, f2)
    ensures var fields, header := [f1, f2], ["field", "field2"];
      && HeaderSafe(fields, header)
      && 0 in HeaderMap(fields, header, m, order, 2).0 && HeaderMap(fields, header, m, order, 2).0[0] == f1
      && 1 in HeaderMap(fields, header, m, order, 2).0 && HeaderMap(fields, header, m, order, 2).0[1] == f2
      && HeaderErrors(fields, header, 2) == [] && HeaderWarnings(fields, header, 2) == []
      && MissingHeaderWarnings(fields, HeaderMap(fields, header, m, order, 2).0.Values, 2) == []
  {
    var fields, header := [f1, f2], ["field", "field2"];
    assert |Lower(f1.name)| != |Lower(f2.name)|;
    assert DistinctNames(fields);
    ExactHeader(fields, header, m, order);
    TwoColumnsHeader(f1, f2);
  }

  /** Header `["minimum", "required"]` for fields of those names: a fresh
      schema is left with the hash `TwoColumns`, and nothing is reported. */
  lemma MinimumRequiredHeaderScenario(f1: Field, f2: Field)
    requires f1.name == "minimum" && f2.name == "required"
    ensures HeaderMap([f1, f2], ["minimum", "required"], map[], [], 2) == TwoColumns(f1, f2)
    ensures var fields, header := [f1, f2], ["minimum", "required"];
      && HeaderSafe(fields, header)
      && HeaderErrors(fields, header, 2) == [] && HeaderWarnings(fields, header, 2) == []
      && MissingHeaderWarnings(fields, HeaderMap(fields, header, map[], [], 2).0.Values, 2) == []
  {
    var fields, header := [f1, f2], ["minimum", "required"];
    assert |Lower(f1.name)| != |Lower(f2.name)|;
    assert DistinctNames(fields);
    ExactHeader(fields, header, map[], []);
    TwoColumnsHeader(f1, f2);
  }

  /** Row `["", "x"]` against `field` (required) and `field2` (minLength 3):
      two errors, `missing_value` at column 1 first, then `min_length` at
      column 2. */
  lemma InvalidRowScenario(f1: Field, f2: Field, lib: Library, states0: map<Field, FieldState>)
    requires f1 != f2 && Declared(f1, "field", RequiredOnly()) && Declared(f2, "field2", MinLengthOnly(3))
    requires f1 in states0 && f2 in states0
    ensures var (m, order) := TwoColumns(f1, f2);
      var slots := Slots([Some(""), Some("x")], 2);
      && RowReady(slots, m, order, lib, states0)
      && RowScan(slots, m, order, lib, None, states0, 2).errors
         == [ColumnDiagnostic(MissingValue, None, Some(Index(1))), ColumnDiagnostic(MinLength, None, Some(Index(2)))]
  {
    var (m, order) := TwoColumns(f1, f2);
    var slots := Slots([Some(""), Some("x")], 2);
    TwoColumnsKeys(f1, f2);
    assert slots == [Some(""), Some("x")];
    assert RowReady(slots, m, order, lib, states0);
    var missing := ColumnDiagnostic(MissingValue, None, Some(Index(1)));
    assert Reports(true, false, false, false, false, false, None, Some(Index(1))) == [missing];
    assert SlotErrors(slots, m, order, lib, None, states0, 0) == [missing];
    assert RowScan(slots, m, order, lib, None, states0, 1).errors == [missing];
  }

  /** Row `["present", "123"]` against the same fields: no error. */
  lemma ValidRowScenario(f1: Field, f2: Field, lib: Library, states0: map<Field, FieldState>)
    requires f1 != f2 && Declared(f1, "field", RequiredOnly()) && Declared(f2, "field2", MinLengthOnly(3))
    requires f1 in states0 && f2 in states0
    ensures var (m, order) := TwoColumns(f1, f2);
      var slots := Slots([Some("present"), Some("123")], 2);
      && RowReady(slots, m, order, lib, states0)
      && RowScan(slots, m, order, lib, None, states0, 2).errors == []
  {
    var (m, order) := TwoColumns(f1, f2);
    var slots := Slots([Some("present"), Some("123")], 2);
    TwoColumnsKeys(f1, f2);
    assert slots == [Some("present"), Some("123")];
    assert RowReady(slots, m, order, lib, states0);
    assert RowScan(slots, m, order, lib, None, states0, 1).errors == [];
  }

  /** Row `["abc"]` against `minimum` (minLength 3) and `required` (required):
      the missing value is checked as `""`, so the short row has one
      `missing_value` error. */
  lemma ShortRowScenario(f1: Field, f2: Field, lib: Library, states0: map<Field, FieldState>)
    requires f1 != f2 && Declared(f1, "minimum", MinLengthOnly(3)) && Declared(f2, "required", RequiredOnly())
    requires f1 in states0 && f2 in states0
    ensures var (m, order) := TwoColumns(f1, f2);
      var slots := Slots([Some("abc")], 2);
      && RowReady(slots, m, order, lib, states0)
      && RowScan(slots, m, order, lib, None, states0, 2).errors == [ColumnDiagnostic(MissingValue, None, Some(Index(2)))]
  {
    var (m, order) := TwoColumns(f1, f2);
    var slots := Slots([Some("abc")], 2);
    TwoColumnsKeys(f1, f2);
    assert slots == [Some("abc"), None];
    assert RowReady(slots, m, order, lib, states0);
    assert RowScan(slots, m, order, lib, None, states0, 1).errors == [];
  }

  /** Header `["MINIMUM", "required"]` for fields `minimum` and `required`:
      the upper-case name still matches its field, so the header is valid,
      every field is mapped, and the only warning is a
      `different_index_header` for the spelling at column 1. */
  lemma UpperCaseHeaderScenario(f1: Field, f2: Field)
    requires f1.name == "minimum" && f2.name == "required"
    ensures var fields, header := [f1, f2], ["MINIMUM", "required"];
      && HeaderSafe(fields, header)
      && HeaderErrors(fields, header, 2) == []
      && HeaderWarnings(fields, header, 2) == [HeaderWarning(DifferentIndexHeader, 0, "MINIMUM")]
      && MissingHeaderWarnings(fields, HeaderMap(fields, header, map[], [], 2).0.Values, 2) == []
  {
    var fields, header := [f1, f2], ["MINIMUM", "required"];
    SameNameIff("MINIMUM", "minimum");
    assert forall i :: 0 <= i < 7 ==> CaseOnly("MINIMUM"[i], "minimum"[i]);
    assert |Lower(f1.name)| != |Lower(f2.name)|;
    assert DistinctNames(fields);
    assert SameName(header[1], fields[1].name);
    CaseInsensitiveMapping(fields, header, map[], []);
    CaseInsensitiveMatches(fields, header, 0);
    CaseInsensitiveMatches(fields, header, 1);
    assert StepWarnings(fields, header, 0) == [HeaderWarning(DifferentIndexHeader, 0, "MINIMUM")];
    assert StepWarnings(fields, header, 1) == [];
    HeaderErrorsNone(fields, header, 2);
  }

  /** Row `["abc", "x"]` against `minimum` (minLength 3) and `required`
      (required): no error. */
  lemma CompleteRowScenario(f1: Field, f2: Field, lib: Library, states0: map<Field, FieldState>)
    requires f1 != f2 && Declared(f1, "minimum", MinLengthOnly(3)) && Declared(f2, "required", RequiredOnly())
    requires f1 in states0 && f2 in states0
    ensures var (m, order) := TwoColumns(f1, f2);
      var slots := Slots([Some("abc"), Some("x")], 2);
      && RowReady(slots, m, order, lib, states0)
      && RowScan(slots, m, order, lib, None, states0, 2).errors == []
  {
    var (m, order) := TwoColumns(f1, f2);
    var slots := Slots([Some("abc"), Some("x")], 2);
    TwoColumnsKeys(f1, f2);
    assert slots == [Some("abc"), Some("x")];
    assert RowReady(slots, m, order, lib, states0);
    assert RowScan(slots, m, order, lib, None, states0, 1).errors == [];
  }

  /** Row `["abc", nil]` against the same fields: the nil cell is checked as
      `""`, so `required` records one `missing_value` at column 2. */
  lemma NilCellRowScenario(f1: Field, f2: Field, lib: Library, states0: map<Field, FieldState>)
    requires f1 != f2 && Declared(f1, "minimum", MinLengthOnly(3)) && Declared(f2, "required", RequiredOnly())
    requires f1 in states0 && f2 in states0
    ensures var (m, order) := TwoColumns(f1, f2);
      var slots := Slots([Some("abc"), None], 2);
      && RowReady(slots, m, order, lib, states0)
      && RowScan(slots, m, order, lib, None, states0, 2).errors == [ColumnDiagnostic(MissingValue, None, Some(Index(2)))]
  {
    var (m, order) := TwoColumns(f1, f2);
    var slots := Slots([Some("abc"), None], 2);
    TwoColumnsKeys(f1, f2);
    assert slots == [Some("abc"), None];
    assert RowReady(slots, m, order, lib, states0);
    assert RowScan(slots, m, order, lib, None, states0, 1).errors == [];
  }

  /** Row `["f", "f"]` against the same fields: the first cell is too short,
      one `min_length` at column 1. */
  lemma ShortCellRowScenario(f1: Field, f2: Field, lib: Library, states0: map<Field, FieldState>)
    requires f1 != f2 && Declared(f1, "minimum", MinLengthOnly(3)) && Declared(f2, "required", RequiredOnly())
    requires f1 in states0 && f2 in states0
    ensures var (m, order) := TwoColumns(f1, f2);
      var slots := Slots([Some("f"), Some("f")], 2);
      && RowReady(slots, m, order, lib, states0)
      && RowScan(slots, m, order, lib, None, states0, 2).errors == [ColumnDiagnostic(MinLength, None, Some(Index(1)))]
  {
    var (m, order) := TwoColumns(f1, f2);
    var slots := Slots([Some("f"), Some("f")], 2);
    TwoColumnsKeys(f1, f2);
    assert slots == [Some("f"), Some("f")];
    assert RowReady(slots, m, order, lib, states0);
    var short := ColumnDiagnostic(MinLength, None, Some(Index(1)));
    assert Reports(false, true, false, false, false, false, None, Some(Index(1))) == [short];
    assert SlotErrors(slots, m, order, lib, None, states0, 0) == [short];
    assert RowScan(slots, m, order, lib, None, states0, 1).errors == [short];
  }

  /** Row `["abc"]` at row 1 against `minimum` (minLength 3) and `required`
      (maxLength 5): no error, and one `missing_column` warning at column 2. */
  lemma FewerColumnsScenario(f1: Field, f2: Field, lib: Library, states0: map<Field, FieldState>)
    requires f1 != f2 && Declared(f1, "minimum", MinLengthOnly(3)) && Declared(f2, "required", MaxLengthOnly(5))
    requires f1 in states0 && f2 in states0
    ensures var (m, order) := TwoColumns(f1, f2);
      var slots := Slots([Some("abc")], 2);
      && RowReady(slots, m, order, lib, states0)
      && RowScan(slots, m, order, lib, Some(1), states0, 2).errors == []
      && RowScan(slots, m, order, lib, Some(1), states0, 2).warnings == []
      && MissingColumnWarnings([f1, f2], slots, Some(1), 2)
         == [SchemaDiagnostic(MissingColumn, Some(1), Some(Index(2)), Some("required"))]
  {
    var (m, order) := TwoColumns(f1, f2);
    var slots := Slots([Some("abc")], 2);
    TwoColumnsKeys(f1, f2);
    assert slots == [Some("abc"), None];
    assert RowReady(slots, m, order, lib, states0);
    assert RowScan(slots, m, order, lib, Some(1), states0, 1).errors == [];
    assert MissingColumnWarnings([f1, f2], slots, Some(1), 1) == [];
  }

  /** The first two slots of the row `["abc", "xyz", "more", "columns"]`
      are mapped and pass their checks. */
  lemma ExtraColumnsMappedSlots(f1: Field, f2: Field, lib: Library, states0: map<Field, FieldState>)
    requires f1 != f2 && Declared(f1, "minimum", MinLengthOnly(1)) && Declared(f2, "required", RequiredOnly())
    requires f1 in states0 && f2 in states0
    ensures var (m, order) := TwoColumns(f1, f2);
      var slots := Slots([Some("abc"), Some("xyz"), Some("more"), Some("columns")], 2);
      && slots == [Some("abc"), Some("xyz"), None, None]
      && RowReady(slots, m, order, lib, states0)
      && RowScan(slots, m, order, lib, Some(1), states0, 2).errors == []
      && RowScan(slots, m, order, lib, Some(1), states0, 2).warnings == []
  {
    var (m, order) := TwoColumns(f1, f2);
    var slots := Slots([Some("abc"), Some("xyz"), Some("more"), Some("columns")], 2);
    TwoColumnsKeys(f1, f2);
    assert slots == [Some("abc"), Some("xyz"), None, None];
    assert RowReady(slots, m, order, lib, states0);
    assert RowScan(slots, m, order, lib, Some(1), states0, 1).errors == [];
  }

  /** Row `["abc", "xyz", "more", "columns"]` at row 1 against `minimum`
      (minLength 1) and `required`: no error, and two `extra_column`
      warnings at the 0-based columns 2 and 3. */
  lemma ExtraColumnsScenario(f1: Field, f2: Field, lib: Library, states0: map<Field, FieldState>)
    requires f1 != f2 && Declared(f1, "minimum", MinLengthOnly(1)) && Declared(f2, "required", RequiredOnly())
    requires f1 in states0 && f2 in states0
    ensures var (m, order) := TwoColumns(f1, f2);
      var slots := Slots([Some("abc"), Some("xyz"), Some("more"), Some("columns")], 2);
      && RowReady(slots, m, order, lib, states0)
      && RowScan(slots, m, order, lib, Some(1), states0, 4).errors == []
      && RowScan(slots, m, order, lib, Some(1), states0, 4).warnings
         == [SchemaDiagnostic(ExtraColumn, Some(1), Some(Index(2)), None), SchemaDiagnostic(ExtraColumn, Some(1), Some(Index(3)), None)]
      && MissingColumnWarnings([f1, f2], slots, Some(1), 2) == []
  {
    var (m, order) := TwoColumns(f1, f2);
    var slots := Slots([Some("abc"), Some("xyz"), Some("more"), Some("columns")], 2);
    ExtraColumnsMappedSlots(f1, f2, lib, states0);
    var log2 := RowScan(slots, m, order, lib, Some(1), states0, 2);
    assert 2 !in m && 3 !in m;
    var log3 := RowScan(slots, m, order, lib, Some(1), states0, 3);
    assert log3 == RowStep(slots, m, order, lib, Some(1), log2, 2);
    assert RowScan(slots, m, order, lib, Some(1), states0, 4) == RowStep(slots, m, order, lib, Some(1), log3, 3);
    assert MissingColumnWarnings([f1, f2], slots, Some(1), 1) == [];
  }

  /** Header `["wrong", "required"]` for `minimum` (minLength 3) and
      `required` (required): valid, an `extra_header` warning for "wrong" at
      column 1, and a `missing_header` warning for `minimum`. */
  lemma WrongHeaderScenario(f1: Field, f2: Field)
    requires f1 != f2 && Declared(f1, "minimum", MinLengthOnly(3)) && Declared(f2, "required", RequiredOnly())
    ensures var fields, header := [f1, f2], ["wrong", "required"];
      && HeaderSafe(fields, header)
      && HeaderErrors(fields, header, 2) == []
      && HeaderWarnings(fields, header, 2) == [SchemaDiagnostic(ExtraHeader, None, Some(Index(1)), Some("wrong"))]
      && MissingHeaderWarnings(fields, HeaderMap(fields, header, map[], [], 2).0.Values, 2)
         == [SchemaDiagnostic(MissingHeader, None, Some(Index(1)), Some("minimum"))]
  {
    var fields, header := [f1, f2], ["wrong", "required"];
    assert Lower("wrong") != Lower("minimum") by { assert |Lower("wrong")| != |Lower("minimum")|; }
    assert Lower("wrong") != Lower("required") by { assert Lower("wrong")[0] != Lower("required")[0]; }
    assert MatchIndex(fields, "wrong") == None;
    assert Lower("required") != Lower("minimum") by { assert |Lower("required")| != |Lower("minimum")|; }
    assert MatchIndex(fields, "required") == Some(1);
    assert !MissingRequiredAt(fields, header, 0) && !MissingRequiredAt(fields, header, 1);
    assert HeaderErrors(fields, header, 1) == [];
    assert HeaderWarnings(fields, header, 1) == [HeaderWarning(ExtraHeader, 0, "wrong")];
    assert StepWarnings(fields, header, 1) == [];
    assert HeaderMap(fields, header, map[], [], 1) == (map[], []);
    assert HeaderMap(fields, header, map[], [], 2).0 == map[1 := f2];
    assert FirstIndexOf(fields, f1) == 0;
    assert MissingHeaderWarnings(fields, map[1 := f2].Values, 1) == [HeaderWarning(MissingHeader, 0, "minimum")];
    assert f1 !in map[1 := f2].Values;
    assert f2 in map[1 := f2].Values;
  }
}
