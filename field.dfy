/** `Csvlint::Field`: one declared column, with its constraint map, the set
    of values it has seen in this session and the diagnostics of its last
    `validate_column` call. */
module Fields {
  import opened Diagnostics
  import opened Columns

  class Field {
    const name: string
    const constraints: Constraints
    /** `TYPE_VALIDATIONS[constraints["type"]]`. The constraint map is never
        replaced, so the lookup `validate_column` makes on every call yields
        this rule each time; the model makes it once, here. */
    const rule: Option<TypeRule>
    /** `@uniques`: assigned only by the constructor, afterwards only added to. */
    var uniques: set<Option<string>>
    var errors: seq<Diagnostic>
    var warnings: seq<Diagnostic>

    /** `Field.new(name, constraints)`; a nil constraint map becomes `{}`. */
    constructor (name: string, constraints: Option<Constraints>)
      ensures this.name == name
      ensures this.constraints == (if constraints.Some? then constraints.value else NoConstraints)
      ensures rule == TypeRuleOf(this.constraints)
      ensures uniques == {} && errors == [] && warnings == []
    {
      this.name := name;
      this.constraints := constraints.GetOr(NoConstraints);
      rule := TypeRuleOf(constraints.GetOr(NoConstraints));
      uniques := {};
      errors, warnings := [], [];
    }

    /** `validate_column(value, row, column)`: resets the diagnostics, runs the
        five constraint checks and the type rule, and answers whether this call
        recorded no error. */
    method ValidateColumn(value: Option<string>, row: Option<int>, column: Option<Column>, lib: Library) returns (ok: bool)
      requires ColumnSafe(rule, lib, value)
      modifies this
      ensures errors == ColumnErrors(constraints, rule, lib, old(uniques), value, row, column)
      ensures uniques == UniquesAfter(constraints, old(uniques), value)
      ensures warnings == []
      ensures ok <==> errors == []
    {
      errors, warnings := [], [];
      var errs := CheckConstraints(value, row, column, lib);
      errors := errs;
      ApplyTypeRule(value, row, column, lib);
      ok := |errors| == 0;
    }

    /** The five constraint checks of `validate_column`, in their order; the
        unique check records an unseen value. */
    method CheckConstraints(value: Option<string>, row: Option<int>, column: Option<Column>, lib: Library)
      returns (errs: seq<Diagnostic>)
      modifies this`uniques
      ensures errs == Report(RequiredFails(constraints, value), MissingValue, row, column)
                    + Report(MinLengthFails(constraints, value), MinLength, row, column)
                    + Report(MaxLengthFails(constraints, value), MaxLength, row, column)
                    + Report(PatternFails(constraints, lib, value), Pattern, row, column)
                    + Report(UniqueFails(constraints, old(uniques), value), Unique, row, column)
      ensures uniques == UniquesAfter(constraints, old(uniques), value)
    {
      var c := constraints;
      errs := [];
      if c.required.IsTrue() {
        if value.None? || |value.value| == 0 {
          errs := errs + [ColumnDiagnostic(MissingValue, row, column)];
        }
      }
      assert errs == Report(RequiredFails(c, value), MissingValue, row, column);
      ghost var e1 := errs;
      if c.minLength.Some? {
        if value.None? || |value.value| < c.minLength.value {
          errs := errs + [ColumnDiagnostic(MinLength, row, column)];
        }
      }
      assert errs == e1 + Report(MinLengthFails(c, value), MinLength, row, column);
      ghost var e2 := errs;
      if c.maxLength.Some? {
        if value.Some? && |value.value| > c.maxLength.value {
          errs := errs + [ColumnDiagnostic(MaxLength, row, column)];
        }
      }
      assert errs == e2 + Report(MaxLengthFails(c, value), MaxLength, row, column);
      ghost var e3 := errs;
      if c.pattern.Some? {
        if value.Some? && !lib.regexMatch(value.value, c.pattern.value) {
          errs := errs + [ColumnDiagnostic(Pattern, row, column)];
        }
      }
      assert errs == e3 + Report(PatternFails(c, lib, value), Pattern, row, column);
      ghost var e4 := errs;
      if c.unique.IsTrue() {
        if value in uniques {
          errs := errs + [ColumnDiagnostic(Unique, row, column)];
        } else {
          uniques := uniques + {value};
        }
      }
    }

    /** Calls the field's type rule, if any, turning an ArgumentError it
        raises into an `invalid_type` error. */
    method ApplyTypeRule(value: Option<string>, row: Option<int>, column: Option<Column>, lib: Library)
      requires ColumnSafe(rule, lib, value)
      modifies this`errors
      ensures errors == old(errors) + Report(TypeFails(rule, lib, value), InvalidType, row, column)
    {
      if rule.Some? {
        var raised := CallTypeRule(rule.value, value, row, column, lib);
        if raised {
          errors := errors + [ColumnDiagnostic(InvalidType, row, column)];
        }
      }
    }

    /** Calls the TYPE_VALIDATIONS lambda for `rule`. The anyURI and sign rules
        record `invalid_type` on this field themselves; `raised` says whether the
        lambda raised ArgumentError instead of returning. */
    method CallTypeRule(rule: TypeRule, value: Option<string>, row: Option<int>, column: Option<Column>, lib: Library)
      returns (raised: bool)
      requires RuleDefined(rule, lib, value)
      modifies this`errors
      ensures errors == old(errors) + (if RunRule(rule, lib, value) == Flagged then [ColumnDiagnostic(InvalidType, row, column)] else [])
      ensures raised <==> RunRule(rule, lib, value) == Raised
    {
      raised := false;
      match rule
      case IntRule =>
        raised := lib.parseInteger(value.value).None?;
      case FloatRule =>
        raised := !lib.parseFloat(value.value);
      case DoubleRule =>
        raised := !lib.parseFloat(value.value);
      case AnyUriRule =>
        var kind := lib.parseUri(value.value);
        if !(kind == HttpUri || kind == HttpsUri) {
          errors := errors + [ColumnDiagnostic(InvalidType, row, column)];
        }
      case BooleanRule =>
        if value == Some("true") || value == Some("1") {
        } else if value == Some("false") || value == Some("0") {
        } else {
          raised := true;
        }
      case SignRule(sign) =>
        var parsed := lib.parseInteger(value.value);
        if parsed.None? {
          raised := true;
        } else if !SignHolds(sign, parsed.value) {
          errors := errors + [ColumnDiagnostic(InvalidType, row, column)];
        }
    }
  }
}
