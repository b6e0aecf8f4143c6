/** Diagnostics raised by the schema validators (the ErrorCollector mixin's
    entries): a kind, the `schema` category, an optional row, an optional
    column slot and optional free text. */
module Diagnostics {

  datatype Option<+T> = None | Some(value: T) {
    /** Ruby's `value || default` for a value that is either nil or present. */
    function GetOr(default: T): T {
      match this
      case Some(v) => v
      case None => default
    }
  }

  /** The diagnostic kinds raised by Field and Schema. `MissingHeader` is used
      both as an error and as a warning. */
  datatype Kind =
    | MissingValue | MinLength | MaxLength | Pattern | Unique | InvalidType
    | MissingHeader | DifferentIndexHeader | ExtraHeader | ExtraColumn | MissingColumn

  /** Every diagnostic raised by these validators carries the `:schema` category. */
  datatype Category = SchemaCategory

  /** The column slot of a diagnostic. It normally holds a number; the
      missing-header error stores the declared field's name there instead. */
  datatype Column = Index(n: int) | Name(s: string)

  datatype Diagnostic = Diagnostic(
    kind: Kind,
    category: Category,
    row: Option<int>,
    column: Option<Column>,
    content: Option<string>)

  /** `build_errors(kind, :schema, row, column, content)` and its warning twin
      both record this entry. */
  function SchemaDiagnostic(kind: Kind, row: Option<int>, column: Option<Column>, content: Option<string>): Diagnostic {
    Diagnostic(kind, SchemaCategory, row, column, content)
  }

  /** A list of diagnostics in which no entry occurs twice. */
  predicate NoRepeats(r: seq<Diagnostic>) {
    forall p, q :: 0 <= p < q < |r| ==> r[p] != r[q]
  }

  /** Appending an entry not yet present keeps the list free of repeats. */
  lemma NoRepeatsAppend(r: seq<Diagnostic>, x: Diagnostic)
    requires NoRepeats(r) && x !in r
    ensures NoRepeats(r + [x])
  {
    forall p, q | 0 <= p < q < |r + [x]|
      ensures (r + [x])[p] != (r + [x])[q]
    {
      assert (r + [x])[p] == r[p];
      if q == |r| {
        assert r[p] in r;
      } else {
        assert (r + [x])[q] == r[q];
      }
    }
  }

  /** In a list without repeats, an entry present occurs exactly once. */
  lemma {:induction false} NoRepeatsOnce(r: seq<Diagnostic>, d: Diagnostic)
    requires NoRepeats(r) && d in r
    ensures multiset(r)[d] == 1
  {
    assert r == [r[0]] + r[1..];
    assert multiset(r) == multiset([r[0]]) + multiset(r[1..]);
    assert NoRepeats(r[1..]) by {
      forall p, q | 0 <= p < q < |r[1..]| ensures r[1..][p] != r[1..][q] {
        assert r[1..][p] == r[p + 1] && r[1..][q] == r[q + 1];
      }
    }
    if d == r[0] {
      forall j | 0 <= j < |r[1..]| ensures r[1..][j] != d {
        assert r[1..][j] == r[j + 1];
      }
      assert d !in r[1..];
    } else {
      NoRepeatsOnce(r[1..], d);
    }
  }
}
