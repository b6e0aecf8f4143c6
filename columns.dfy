/** The constraint and type rules that `Csvlint::Field#validate_column`
    applies to one value, stated as pure functions of the field's constraints,
    its set of values seen so far and the value. */
module Columns {
  import opened Diagnostics

  /** What a constraint map holds under the `required` or `unique` key: nothing
      (the key is absent or maps to nil), `true`, `false`, or any other value,
      which Ruby treats as truthy although it is not `== true`. */
  datatype Flag = Absent | FlagTrue | FlagFalse | OtherValue {
    /** `constraints[key] == true` */
    predicate IsTrue() {
      this == FlagTrue
    }

    /** Ruby truthiness: everything except nil and false. */
    predicate Truthy() {
      this == FlagTrue || this == OtherValue
    }
  }

  /** The recognised keys of a field's constraint map. A length bound is
      present when the key holds an integer; `None` stands for absent, nil or
      false. */
  datatype Constraints = Constraints(
    required: Flag,
    minLength: Option<int>,
    maxLength: Option<int>,
    pattern: Option<string>,
    unique: Flag,
    typeUri: Option<string>)

  /** The empty constraint map `{}`. */
  const NoConstraints := Constraints(Absent, None, None, None, Absent, None)

  /** What `URI.parse` makes of a text: an `URI::HTTP`, an `URI::HTTPS`, some
      other URI class, or a parse failure (`URI::InvalidURIError`). */
  datatype UriKind = HttpUri | HttpsUri | OtherUri | Unparseable

  /** The Ruby library behaviour the rules rely on, as parameters:
      `value.match(pattern)`, `Integer(value)` (None when it raises
      ArgumentError), `Float(value)` (false when it raises ArgumentError) and
      `URI.parse(value)`. */
  datatype Library = Library(
    regexMatch: (string, string) -> bool,
    parseInteger: string -> Option<int>,
    parseFloat: string -> bool,
    parseUri: string -> UriKind)

  /** The sign policies of the four integer-range types. */
  datatype Sign = NonPositive | Negative | NonNegative | Positive

  /** The entries of TYPE_VALIDATIONS. */
  datatype TypeRule = IntRule | FloatRule | DoubleRule | AnyUriRule | BooleanRule | SignRule(sign: Sign)

  const XsdInt := "http://www.w3.org/2001/XMLSchema#int"
  const XsdFloat := "http://www.w3.org/2001/XMLSchema#float"
  const XsdDouble := "http://www.w3.org/2001/XMLSchema#double"
  const XsdAnyUri := "http://www.w3.org/2001/XMLSchema#anyURI"
  const XsdBoolean := "http://www.w3.org/2001/XMLSchema#boolean"
  const XsdNonPositiveInteger := "http://www.w3.org/2001/XMLSchema#nonPositiveInteger"
  const XsdNegativeInteger := "http://www.w3.org/2001/XMLSchema#negativeInteger"
  const XsdNonNegativeInteger := "http://www.w3.org/2001/XMLSchema#nonNegativeInteger"
  const XsdPositiveInteger := "http://www.w3.org/2001/XMLSchema#positiveInteger"

  /** The key under which TYPE_VALIDATIONS stores a rule. */
  function TypeUri(rule: TypeRule): string {
    match rule
    case IntRule => XsdInt
    case FloatRule => XsdFloat
    case DoubleRule => XsdDouble
    case AnyUriRule => XsdAnyUri
    case BooleanRule => XsdBoolean
    case SignRule(NonPositive) => XsdNonPositiveInteger
    case SignRule(Negative) => XsdNegativeInteger
    case SignRule(NonNegative) => XsdNonNegativeInteger
    case SignRule(Positive) => XsdPositiveInteger
  }

  /** TYPE_VALIDATIONS: the type rules in the order the table lists them,
      each under its XML Schema datatype URI. */
  const TypeValidations: seq<(string, TypeRule)> := [
    (XsdInt, IntRule),
    (XsdFloat, FloatRule),
    (XsdDouble, DoubleRule),
    (XsdAnyUri, AnyUriRule),
    (XsdBoolean, BooleanRule),
    (XsdNonPositiveInteger, SignRule(NonPositive)),
    (XsdNegativeInteger, SignRule(Negative)),
    (XsdNonNegativeInteger, SignRule(NonNegative)),
    (XsdPositiveInteger, SignRule(Positive))]

  /** The rule a table stores under `uri`: the first entry with that key. */
  function Lookup(table: seq<(string, TypeRule)>, uri: string): (r: Option<TypeRule>)
    ensures r.Some? ==> (uri, r.value) in table
  {
    if table == [] then None
    else if table[0].0 == uri then Some(table[0].1)
    else Lookup(table[1..], uri)
  }

  /** A rule found is stored under `uri`, and none is found only when no
      entry has that key. */
  lemma {:induction false} LookupChecks(table: seq<(string, TypeRule)>, uri: string)
    ensures Lookup(table, uri).Some? ==> (uri, Lookup(table, uri).value) in table
    ensures Lookup(table, uri).None? <==> forall j :: 0 <= j < |table| ==> table[j].0 != uri
  {
    if table != [] && table[0].0 != uri {
      LookupChecks(table[1..], uri);
      assert forall j :: 1 <= j < |table| ==> table[j] == table[1..][j - 1];
    }
  }

  /** `TYPE_VALIDATIONS[uri]`: the rule stored under `uri`, if any, which is
      the rule whose own URI `uri` is. */
  function TypeRuleFor(uri: string): (r: Option<TypeRule>)
    ensures r.Some? ==> TypeUri(r.value) == uri
  {
    Lookup(TypeValidations, uri)
  }

  /** Looking up a rule's own key finds that rule: no earlier entry of the
      table has the same key. */
  lemma TypeRuleRoundTrip(rule: TypeRule)
    ensures TypeRuleFor(TypeUri(rule)) == Some(rule)
  {
    var t := TypeValidations;
    var k := match rule
      case IntRule => 0
      case FloatRule => 1
      case DoubleRule => 2
      case AnyUriRule => 3
      case BooleanRule => 4
      case SignRule(NonPositive) => 5
      case SignRule(Negative) => 6
      case SignRule(NonNegative) => 7
      case SignRule(Positive) => 8;
    assert t[k] == (TypeUri(rule), rule);
    var r := Lookup(t, TypeUri(rule));
    LookupChecks(t, TypeUri(rule));
    assert r.Some? by { assert t[k].0 == TypeUri(rule); }
    var j :| 0 <= j < |t| && t[j] == (TypeUri(rule), r.value);
    TypeKeysDistinct(j, k);
  }

  /** No two entries of TYPE_VALIDATIONS share a key. */
  lemma TypeKeysDistinct(i: nat, j: nat)
    requires i < |TypeValidations| && j < |TypeValidations|
    requires TypeValidations[i].0 == TypeValidations[j].0
    ensures i == j
  {
    assert |XsdInt| == 36 && XsdInt[33] == 'i';
    assert |XsdFloat| == 38 && XsdFloat[33] == 'f';
    assert |XsdDouble| == 39 && XsdDouble[33] == 'd';
    assert |XsdAnyUri| == 39 && XsdAnyUri[33] == 'a';
    assert |XsdBoolean| == 40 && XsdBoolean[33] == 'b';
    assert |XsdNonPositiveInteger| == 51 && XsdNonPositiveInteger[36] == 'P';
    assert |XsdNegativeInteger| == 48 && XsdNegativeInteger[33] == 'n';
    assert |XsdNonNegativeInteger| == 51 && XsdNonNegativeInteger[36] == 'N';
    assert |XsdPositiveInteger| == 48 && XsdPositiveInteger[33] == 'p';
  }

  /** A type URI that is none of the nine keys selects no rule. */
  lemma UnknownTypeUri(uri: string)
    requires uri !in {XsdInt, XsdFloat, XsdDouble, XsdAnyUri, XsdBoolean,
                      XsdNonPositiveInteger, XsdNegativeInteger, XsdNonNegativeInteger, XsdPositiveInteger}
    ensures TypeRuleFor(uri) == None
  {
    LookupChecks(TypeValidations, uri);
  }

  /** The rule selected by a constraint map (`TYPE_VALIDATIONS[nil]` is nil):
      a rule found is the one for the map's type URI. */
  function TypeRuleOf(c: Constraints): (r: Option<TypeRule>)
    ensures r.Some? ==> c.typeUri == Some(TypeUri(r.value))
  {
    if c.typeUri.Some? then TypeRuleFor(c.typeUri.value) else None
  }

  predicate SignHolds(sign: Sign, n: int) {
    match sign
    case NonPositive => n <= 0
    case Negative => n < 0
    case NonNegative => n >= 0
    case Positive => n > 0
  }

  /** The boolean rule's conversion: `true`/`1` and `false`/`0`; any other
      value, nil included, is a conversion failure. */
  function BooleanValue(value: Option<string>): Option<bool> {
    if value == Some("true") || value == Some("1") then Some(true)
    else if value == Some("false") || value == Some("0") then Some(false)
    else None
  }

  /** How a call of a type rule ends: it returns normally without recording
      anything, it records `invalid_type` itself and returns, or it raises
      ArgumentError, which `validate_column` rescues. */
  datatype RuleOutcome = Accepted | Flagged | Raised

  /** A rule call that does not crash: `Integer(nil)` and `Float(nil)` raise
      TypeError and `URI.parse` raises URI::InvalidURIError, neither of which
      is rescued. The boolean rule accepts any value. */
  predicate RuleDefined(rule: TypeRule, lib: Library, value: Option<string>) {
    match rule
    case BooleanRule => true
    case AnyUriRule => value.Some? && lib.parseUri(value.value) != Unparseable
    case _ => value.Some?
  }

  /** The outcome of calling the lambda stored for `rule`: only the anyURI
      and sign lambdas record `invalid_type` themselves, and the anyURI
      lambda never raises. */
  function RunRule(rule: TypeRule, lib: Library, value: Option<string>): (r: RuleOutcome)
    requires RuleDefined(rule, lib, value)
    ensures r == Flagged ==> rule.AnyUriRule? || rule.SignRule?
    ensures rule.AnyUriRule? ==> r != Raised
  {
    match rule
    case IntRule => if lib.parseInteger(value.value).Some? then Accepted else Raised
    case FloatRule => if lib.parseFloat(value.value) then Accepted else Raised
    case DoubleRule => if lib.parseFloat(value.value) then Accepted else Raised
    case AnyUriRule =>
      var kind := lib.parseUri(value.value);
      if kind == HttpUri || kind == HttpsUri then Accepted else Flagged
    case BooleanRule => if BooleanValue(value).Some? then Accepted else Raised
    case SignRule(sign) =>
      match lib.parseInteger(value.value)
      case None => Raised
      case Some(n) => if SignHolds(sign, n) then Accepted else Flagged
  }

  /** A `validate_column` call on `value` that does not crash. */
  predicate ColumnSafe(rule: Option<TypeRule>, lib: Library, value: Option<string>) {
    rule.Some? ==> RuleDefined(rule.value, lib, value)
  }

  // The condition under which each check records its error.

  predicate RequiredFails(c: Constraints, value: Option<string>) {
    c.required.IsTrue() && (value.None? || |value.value| == 0)
  }

  predicate MinLengthFails(c: Constraints, value: Option<string>) {
    c.minLength.Some? && (value.None? || |value.value| < c.minLength.value)
  }

  predicate MaxLengthFails(c: Constraints, value: Option<string>) {
    c.maxLength.Some? && value.Some? && |value.value| > c.maxLength.value
  }

  predicate PatternFails(c: Constraints, lib: Library, value: Option<string>) {
    c.pattern.Some? && value.Some? && !lib.regexMatch(value.value, c.pattern.value)
  }

  predicate UniqueFails(c: Constraints, uniques: set<Option<string>>, value: Option<string>) {
    c.unique.IsTrue() && value in uniques
  }

  predicate TypeFails(rule: Option<TypeRule>, lib: Library, value: Option<string>)
    requires ColumnSafe(rule, lib, value)
  {
    rule.Some? && RunRule(rule.value, lib, value) != Accepted
  }

  /** The entry every check of `validate_column` records. */
  function ColumnDiagnostic(kind: Kind, row: Option<int>, column: Option<Column>): Diagnostic {
    SchemaDiagnostic(kind, row, column, None)
  }

  function Report(fails: bool, kind: Kind, row: Option<int>, column: Option<Column>): seq<Diagnostic> {
    if fails then [ColumnDiagnostic(kind, row, column)] else []
  }

  /** The position of a kind in the fixed order of the column checks; 6 for
      the kinds no column check records. */
  function Rank(kind: Kind): nat {
    match kind
    case MissingValue => 0
    case MinLength => 1
    case MaxLength => 2
    case Pattern => 3
    case Unique => 4
    case InvalidType => 5
    case _ => 6
  }

  /** The entries appear in check order, so no kind appears twice. */
  predicate InCheckOrder(r: seq<Diagnostic>) {
    forall p, q :: 0 <= p < q < |r| ==> Rank(r[p].kind) < Rank(r[q].kind)
  }

  /** The errors one `validate_column(value, row, column)` call leaves behind,
      given the set of values the field has seen before the call: each
      check's report, in the order the checks run, so at most six. */
  function ColumnErrors(c: Constraints, rule: Option<TypeRule>, lib: Library, uniques: set<Option<string>>,
                        value: Option<string>, row: Option<int>, column: Option<Column>): (r: seq<Diagnostic>)
    requires ColumnSafe(rule, lib, value)
    ensures |r| <= 6
  {
    Reports(RequiredFails(c, value), MinLengthFails(c, value), MaxLengthFails(c, value),
            PatternFails(c, lib, value), UniqueFails(c, uniques, value), TypeFails(rule, lib, value), row, column)
  }

  /** A call records only column-check entries for its own row and column,
      in check order, and each check's entry exactly when that check fails. */
  lemma ColumnErrorsChecks(c: Constraints, rule: Option<TypeRule>, lib: Library, uniques: set<Option<string>>,
                           value: Option<string>, row: Option<int>, column: Option<Column>)
    requires ColumnSafe(rule, lib, value)
    ensures (forall d :: d in ColumnErrors(c, rule, lib, uniques, value, row, column) ==> Rank(d.kind) < 6 && d == ColumnDiagnostic(d.kind, row, column))
    ensures InCheckOrder(ColumnErrors(c, rule, lib, uniques, value, row, column))
    ensures (ColumnDiagnostic(MissingValue, row, column) in ColumnErrors(c, rule, lib, uniques, value, row, column) <==> RequiredFails(c, value))
    ensures (ColumnDiagnostic(MinLength, row, column) in ColumnErrors(c, rule, lib, uniques, value, row, column) <==> MinLengthFails(c, value))
    ensures (ColumnDiagnostic(MaxLength, row, column) in ColumnErrors(c, rule, lib, uniques, value, row, column) <==> MaxLengthFails(c, value))
    ensures (ColumnDiagnostic(Pattern, row, column) in ColumnErrors(c, rule, lib, uniques, value, row, column) <==> PatternFails(c, lib, value))
    ensures (ColumnDiagnostic(Unique, row, column) in ColumnErrors(c, rule, lib, uniques, value, row, column) <==> UniqueFails(c, uniques, value))
    ensures (ColumnDiagnostic(InvalidType, row, column) in ColumnErrors(c, rule, lib, uniques, value, row, column) <==> TypeFails(rule, lib, value))
  {
    ReportsInCheckOrder(RequiredFails(c, value), MinLengthFails(c, value), MaxLengthFails(c, value),
                        PatternFails(c, lib, value), UniqueFails(c, uniques, value), TypeFails(rule, lib, value), row, column);
    ReportsPresence(RequiredFails(c, value), MinLengthFails(c, value), MaxLengthFails(c, value),
                    PatternFails(c, lib, value), UniqueFails(c, uniques, value), TypeFails(rule, lib, value), row, column);
  }

  /** The six checks' reports, concatenated in check order. */
  function Reports(required: bool, minLength: bool, maxLength: bool, pattern: bool, unique: bool, invalidType: bool,
                   row: Option<int>, column: Option<Column>): seq<Diagnostic>
  {
    Report(required, MissingValue, row, column)
    + Report(minLength, MinLength, row, column)
    + Report(maxLength, MaxLength, row, column)
    + Report(pattern, Pattern, row, column)
    + Report(unique, Unique, row, column)
    + Report(invalidType, InvalidType, row, column)
  }

  /** Entries in check order, all of ranks below `bound`, all recorded for
      the same row and column. */
  predicate Staged(r: seq<Diagnostic>, bound: nat, row: Option<int>, column: Option<Column>) {
    && InCheckOrder(r)
    && forall d :: d in r ==> Rank(d.kind) < bound && d == ColumnDiagnostic(d.kind, row, column)
  }

  /** Appending the next check's report keeps the entries in check order. */
  lemma AppendReport(r: seq<Diagnostic>, fails: bool, kind: Kind, row: Option<int>, column: Option<Column>)
    requires Staged(r, Rank(kind), row, column)
    ensures Staged(r + Report(fails, kind, row, column), Rank(kind) + 1, row, column)
  {
  }

  /** The first three reports are in check order. */
  lemma LengthReportsInCheckOrder(required: bool, minLength: bool, maxLength: bool, row: Option<int>, column: Option<Column>)
    ensures Staged(Report(required, MissingValue, row, column) + Report(minLength, MinLength, row, column)
                   + Report(maxLength, MaxLength, row, column), 3, row, column)
  {
    var r1 := Report(required, MissingValue, row, column);
    AppendReport([], required, MissingValue, row, column);
    assert [] + r1 == r1;
    AppendReport(r1, minLength, MinLength, row, column);
    AppendReport(r1 + Report(minLength, MinLength, row, column), maxLength, MaxLength, row, column);
  }

  /** The entries of the six reports are in check order. */
  lemma ReportsInCheckOrder(required: bool, minLength: bool, maxLength: bool, pattern: bool, unique: bool, invalidType: bool,
                            row: Option<int>, column: Option<Column>)
    ensures Staged(Reports(required, minLength, maxLength, pattern, unique, invalidType, row, column), 6, row, column)
  {
    var r3 := Report(required, MissingValue, row, column) + Report(minLength, MinLength, row, column)
              + Report(maxLength, MaxLength, row, column);
    var r4 := r3 + Report(pattern, Pattern, row, column);
    var r5 := r4 + Report(unique, Unique, row, column);
    LengthReportsInCheckOrder(required, minLength, maxLength, row, column);
    AppendReport(r3, pattern, Pattern, row, column);
    AppendReport(r4, unique, Unique, row, column);
    AppendReport(r5, invalidType, InvalidType, row, column);
    assert Reports(required, minLength, maxLength, pattern, unique, invalidType, row, column)
        == r5 + Report(invalidType, InvalidType, row, column);
  }

  /** Appending a check's report adds that check's entry and nothing else. */
  lemma AppendPresence(r: seq<Diagnostic>, fails: bool, kind: Kind, row: Option<int>, column: Option<Column>, k: Kind)
    ensures ColumnDiagnostic(k, row, column) in r + Report(fails, kind, row, column)
        <==> ColumnDiagnostic(k, row, column) in r || (fails && k == kind)
  {
  }

  /** Whether the check recording `k` failed, among the six outcomes. */
  function Outcome(required: bool, minLength: bool, maxLength: bool, pattern: bool, unique: bool, invalidType: bool,
                   k: Kind): bool
  {
    match k
    case MissingValue => required
    case MinLength => minLength
    case MaxLength => maxLength
    case Pattern => pattern
    case Unique => unique
    case InvalidType => invalidType
    case _ => false
  }

  /** The entry of kind `k` is present exactly when its check failed. */
  lemma KindPresence(required: bool, minLength: bool, maxLength: bool, pattern: bool, unique: bool, invalidType: bool,
                     row: Option<int>, column: Option<Column>, k: Kind)
    ensures ColumnDiagnostic(k, row, column) in Reports(required, minLength, maxLength, pattern, unique, invalidType, row, column)
        <==> Outcome(required, minLength, maxLength, pattern, unique, invalidType, k)
  {
    var r1 := Report(required, MissingValue, row, column);
    var r2 := r1 + Report(minLength, MinLength, row, column);
    var r3 := r2 + Report(maxLength, MaxLength, row, column);
    var r4 := r3 + Report(pattern, Pattern, row, column);
    var r5 := r4 + Report(unique, Unique, row, column);
    AppendPresence([], required, MissingValue, row, column, k);
    assert [] + Report(required, MissingValue, row, column) == r1;
    AppendPresence(r1, minLength, MinLength, row, column, k);
    AppendPresence(r2, maxLength, MaxLength, row, column, k);
    AppendPresence(r3, pattern, Pattern, row, column, k);
    AppendPresence(r4, unique, Unique, row, column, k);
    AppendPresence(r5, invalidType, InvalidType, row, column, k);
  }

  /** Each check's entry is present exactly when that check failed. */
  lemma ReportsPresence(required: bool, minLength: bool, maxLength: bool, pattern: bool, unique: bool, invalidType: bool,
                        row: Option<int>, column: Option<Column>)
    ensures var r := Reports(required, minLength, maxLength, pattern, unique, invalidType, row, column);
      && (ColumnDiagnostic(MissingValue, row, column) in r <==> required)
      && (ColumnDiagnostic(MinLength, row, column) in r <==> minLength)
      && (ColumnDiagnostic(MaxLength, row, column) in r <==> maxLength)
      && (ColumnDiagnostic(Pattern, row, column) in r <==> pattern)
      && (ColumnDiagnostic(Unique, row, column) in r <==> unique)
      && (ColumnDiagnostic(InvalidType, row, column) in r <==> invalidType)
  {
    KindPresence(required, minLength, maxLength, pattern, unique, invalidType, row, column, MissingValue);
    KindPresence(required, minLength, maxLength, pattern, unique, invalidType, row, column, MinLength);
    KindPresence(required, minLength, maxLength, pattern, unique, invalidType, row, column, MaxLength);
    KindPresence(required, minLength, maxLength, pattern, unique, invalidType, row, column, Pattern);
    KindPresence(required, minLength, maxLength, pattern, unique, invalidType, row, column, Unique);
    KindPresence(required, minLength, maxLength, pattern, unique, invalidType, row, column, InvalidType);
  }

  /** The field's set of seen values after one `validate_column` call. */
  function UniquesAfter(c: Constraints, uniques: set<Option<string>>, value: Option<string>): (r: set<Option<string>>)
    ensures uniques <= r
    ensures r - uniques <= {value}
    ensures value in r <==> value in uniques || c.unique.IsTrue()
  {
    if c.unique.IsTrue() && value !in uniques then uniques + {value} else uniques
  }

  /** Entries in check order never repeat. */
  lemma {:induction false} InCheckOrderAtMostOnce(r: seq<Diagnostic>, d: Diagnostic)
    requires InCheckOrder(r)
    ensures multiset(r)[d] <= 1
    ensures d in r ==> multiset(r)[d] == 1
  {
    if r != [] {
      assert r == [r[0]] + r[1..];
      assert InCheckOrder(r[1..]) by {
        forall p, q | 0 <= p < q < |r[1..]| ensures Rank(r[1..][p].kind) < Rank(r[1..][q].kind) {
          assert r[1..][p] == r[p + 1] && r[1..][q] == r[q + 1];
        }
      }
      InCheckOrderAtMostOnce(r[1..], d);
      if d == r[0] {
        forall j | 0 <= j < |r[1..]| ensures r[1..][j] != d {
          assert r[1..][j] == r[j + 1];
          assert Rank(r[0].kind) < Rank(r[j + 1].kind);
        }
        assert d !in r[1..];
      }
      assert multiset(r) == multiset([r[0]]) + multiset(r[1..]);
    }
  }

  /** A required field records `missing_value`, first, for a nil or empty
      value, and the call is invalid. */
  lemma RequiredRejectsEmpty(c: Constraints, rule: Option<TypeRule>, lib: Library, uniques: set<Option<string>>,
                             value: Option<string>, row: Option<int>, column: Option<Column>)
    requires ColumnSafe(rule, lib, value)
    requires c.required.IsTrue()
    requires value == None || value == Some("")
    ensures ColumnErrors(c, rule, lib, uniques, value, row, column) != []
    ensures ColumnErrors(c, rule, lib, uniques, value, row, column)[0] == ColumnDiagnostic(MissingValue, row, column)
  {
    ColumnErrorsChecks(c, rule, lib, uniques, value, row, column);
    var r := ColumnErrors(c, rule, lib, uniques, value, row, column);
    assert ColumnDiagnostic(MissingValue, row, column) in r;
    var j :| 0 <= j < |r| && r[j] == ColumnDiagnostic(MissingValue, row, column);
    assert j == 0 || Rank(r[0].kind) < Rank(r[j].kind);
  }

  /** A nil value never trips `maxLength` or `pattern`, and always trips a
      configured `minLength`. */
  lemma NilValueChecks(c: Constraints, rule: Option<TypeRule>, lib: Library, uniques: set<Option<string>>,
                       row: Option<int>, column: Option<Column>)
    requires ColumnSafe(rule, lib, None)
    ensures ColumnDiagnostic(MaxLength, row, column) !in ColumnErrors(c, rule, lib, uniques, None, row, column)
    ensures ColumnDiagnostic(Pattern, row, column) !in ColumnErrors(c, rule, lib, uniques, None, row, column)
    ensures (ColumnDiagnostic(MinLength, row, column) in ColumnErrors(c, rule, lib, uniques, None, row, column))
            == c.minLength.Some?
  {
    ColumnErrorsChecks(c, rule, lib, uniques, None, row, column);
  }

  /** With `unique == true`: a new value passes the check and is remembered;
      a value seen before is reported exactly once and the set is unchanged. */
  lemma UniqueTracking(c: Constraints, rule: Option<TypeRule>, lib: Library, uniques: set<Option<string>>,
                       value: Option<string>, row: Option<int>, column: Option<Column>)
    requires ColumnSafe(rule, lib, value)
    requires c.unique.IsTrue()
    ensures value !in uniques ==>
      ColumnDiagnostic(Unique, row, column) !in ColumnErrors(c, rule, lib, uniques, value, row, column)
      && UniquesAfter(c, uniques, value) == uniques + {value}
    ensures value in uniques ==>
      multiset(ColumnErrors(c, rule, lib, uniques, value, row, column))[ColumnDiagnostic(Unique, row, column)] == 1
      && UniquesAfter(c, uniques, value) == uniques
  {
    ColumnErrorsChecks(c, rule, lib, uniques, value, row, column);
    if value in uniques {
      InCheckOrderAtMostOnce(ColumnErrors(c, rule, lib, uniques, value, row, column), ColumnDiagnostic(Unique, row, column));
    }
  }

  /** Validating the same value twice on a `unique` field: the first call
      passes the uniqueness check, the second records `unique` exactly once. */
  lemma RepeatedValueIsUnique(c: Constraints, rule: Option<TypeRule>, lib: Library, uniques: set<Option<string>>, value: Option<string>,
                              row1: Option<int>, column1: Option<Column>, row2: Option<int>, column2: Option<Column>)
    requires ColumnSafe(rule, lib, value)
    requires c.unique.IsTrue() && value !in uniques
    ensures ColumnDiagnostic(Unique, row1, column1) !in ColumnErrors(c, rule, lib, uniques, value, row1, column1)
    ensures var later := UniquesAfter(c, uniques, value);
      multiset(ColumnErrors(c, rule, lib, later, value, row2, column2))[ColumnDiagnostic(Unique, row2, column2)] == 1
  {
    ColumnErrorsChecks(c, rule, lib, uniques, value, row1, column1);
    var later := UniquesAfter(c, uniques, value);
    UniqueTracking(c, rule, lib, later, value, row2, column2);
  }

  /** `invalid_type` is recorded exactly once when the type check fails, and
      not at all otherwise. */
  lemma InvalidTypeCount(c: Constraints, rule: Option<TypeRule>, lib: Library, uniques: set<Option<string>>,
                         value: Option<string>, row: Option<int>, column: Option<Column>)
    requires ColumnSafe(rule, lib, value)
    ensures ColumnDiagnostic(InvalidType, row, column) in ColumnErrors(c, rule, lib, uniques, value, row, column) <==> TypeFails(rule, lib, value)
    ensures TypeFails(rule, lib, value) ==>
      multiset(ColumnErrors(c, rule, lib, uniques, value, row, column))[ColumnDiagnostic(InvalidType, row, column)] == 1
  {
    ColumnErrorsChecks(c, rule, lib, uniques, value, row, column);
    InCheckOrderAtMostOnce(ColumnErrors(c, rule, lib, uniques, value, row, column), ColumnDiagnostic(InvalidType, row, column));
  }

  /** The four integer-range types: a parsed value is reported iff it breaks
      the sign policy; an unparsable one is reported exactly once. */
  lemma SignRuleChecks(c: Constraints, rule: Option<TypeRule>, lib: Library, uniques: set<Option<string>>,
                       text: string, row: Option<int>, column: Option<Column>, sign: Sign)
    requires rule == Some(SignRule(sign))
    ensures var r := ColumnErrors(c, rule, lib, uniques, Some(text), row, column);
      && (lib.parseInteger(text).Some? ==>
            (ColumnDiagnostic(InvalidType, row, column) in r <==> !SignHolds(sign, lib.parseInteger(text).value)))
      && (lib.parseInteger(text).None? ==> multiset(r)[ColumnDiagnostic(InvalidType, row, column)] == 1)
  {
    InvalidTypeCount(c, rule, lib, uniques, Some(text), row, column);
    assert TypeFails(rule, lib, Some(text)) == (RunRule(SignRule(sign), lib, Some(text)) != Accepted);
  }

  /** The boolean type accepts exactly `true`, `1`, `false` and `0`; any other
      value, nil included, is reported exactly once. */
  lemma BooleanRuleChecks(c: Constraints, rule: Option<TypeRule>, lib: Library, uniques: set<Option<string>>,
                          value: Option<string>, row: Option<int>, column: Option<Column>)
    requires rule == Some(BooleanRule)
    ensures var accepted := value == Some("true") || value == Some("1") || value == Some("false") || value == Some("0");
      var r := ColumnErrors(c, rule, lib, uniques, value, row, column);
      && (accepted ==> ColumnDiagnostic(InvalidType, row, column) !in r)
      && (!accepted ==> multiset(r)[ColumnDiagnostic(InvalidType, row, column)] == 1)
  {
    InvalidTypeCount(c, rule, lib, uniques, value, row, column);
  }

  /** `int`, `float` and `double` report a value exactly once when the
      conversion raises and never otherwise; `anyURI` reports a parsed URI
      that is neither HTTP nor HTTPS exactly once. */
  lemma ConversionRuleChecks(c: Constraints, rule: Option<TypeRule>, lib: Library, uniques: set<Option<string>>,
                             text: string, row: Option<int>, column: Option<Column>)
    requires rule in {Some(IntRule), Some(FloatRule), Some(DoubleRule), Some(AnyUriRule)}
    requires rule == Some(AnyUriRule) ==> lib.parseUri(text) != Unparseable
    ensures var r := ColumnErrors(c, rule, lib, uniques, Some(text), row, column);
      var accepted := match rule.value
        case IntRule => lib.parseInteger(text).Some?
        case AnyUriRule => lib.parseUri(text) in {HttpUri, HttpsUri}
        case _ => lib.parseFloat(text);
      && (accepted ==> ColumnDiagnostic(InvalidType, row, column) !in r)
      && (!accepted ==> multiset(r)[ColumnDiagnostic(InvalidType, row, column)] == 1)
  {
    InvalidTypeCount(c, rule, lib, uniques, Some(text), row, column);
  }

  /** An absent or unrecognised type applies no type check. */
  lemma NoTypeRuleNoTypeError(c: Constraints, rule: Option<TypeRule>, lib: Library, uniques: set<Option<string>>,
                              value: Option<string>, row: Option<int>, column: Option<Column>)
    requires rule == TypeRuleOf(c)
    requires c.typeUri.None? || c.typeUri.value !in
      {XsdInt, XsdFloat, XsdDouble, XsdAnyUri, XsdBoolean,
       XsdNonPositiveInteger, XsdNegativeInteger, XsdNonNegativeInteger, XsdPositiveInteger}
    ensures ColumnSafe(rule, lib, value)
    ensures ColumnDiagnostic(InvalidType, row, column) !in ColumnErrors(c, rule, lib, uniques, value, row, column)
  {
    if c.typeUri.Some? {
      UnknownTypeUri(c.typeUri.value);
    }
    ColumnErrorsChecks(c, rule, lib, uniques, value, row, column);
  }

  /** A field built with a nil constraint map checks nothing: it never records
      an error and never remembers a value. */
  lemma NoConstraintsAcceptEverything(lib: Library, uniques: set<Option<string>>,
                                      value: Option<string>, row: Option<int>, column: Option<Column>)
    ensures TypeRuleOf(NoConstraints) == None
    ensures ColumnSafe(None, lib, value)
    ensures ColumnErrors(NoConstraints, None, lib, uniques, value, row, column) == []
    ensures UniquesAfter(NoConstraints, uniques, value) == uniques
  {
  }
}
