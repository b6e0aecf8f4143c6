/** What `Schema#validate_row` computes, as functions of the row, the hash
    `@fields_by_index` and the state of the fields before the call: the
    working array of slots, the errors and `extra_column` warnings of the
    loop over the slots, the fields' new state, and the `missing_column`
    warnings of the loop over the declared fields. */
module Rows {
  import opened Diagnostics
  import opened Columns
  import opened Fields
  import opened IndexMaps
  import opened Headers

  function Max(a: int, b: int): int {
    if a < b then b else a
  }

  /** `values_array`: as many slots as the larger of the row and the hash;
      the first `mapped` slots copy the row, every other slot is nil, so a
      slot that holds a value holds the row's value at that position. */
  function Slots(values: seq<Option<string>>, mapped: nat): (r: seq<Option<string>>)
    ensures |values| <= |r| && mapped <= |r|
    ensures forall i :: 0 <= i < |r| && r[i].Some? ==> i < |values| && r[i] == values[i]
  {
    seq(Max(|values|, mapped), i requires 0 <= i < Max(|values|, mapped) =>
      if i < mapped && i < |values| then values[i] else None)
  }

  /** What `validate_column` leaves in a field: its set of seen values and
      its diagnostics. */
  datatype FieldState = FieldState(uniques: set<Option<string>>, errors: seq<Diagnostic>, warnings: seq<Diagnostic>)

  /** The row's diagnostics so far, and the state of every mapped field. */
  datatype RowLog = RowLog(errors: seq<Diagnostic>, warnings: seq<Diagnostic>, states: map<Field, FieldState>)

  /** Every field the hash holds has a state. */
  predicate Covers(byIndex: map<nat, Field>, states: map<Field, FieldState>) {
    forall k :: k in byIndex ==> byIndex[k] in states
  }

  /** A row on which no `validate_column` call crashes. */
  predicate RowSafe(slots: seq<Option<string>>, byIndex: map<nat, Field>, lib: Library) {
    forall i :: 0 <= i < |slots| && i in byIndex ==> ColumnSafe(byIndex[i].rule, lib, Some(slots[i].GetOr("")))
  }

  /** What the loop over the slots needs: a well-formed hash, a row on which
      no column check crashes, and a state for every mapped field. */
  ghost predicate RowReady(slots: seq<Option<string>>, byIndex: map<nat, Field>, order: seq<nat>, lib: Library,
                           states: map<Field, FieldState>) {
    Ordered(byIndex, order) && RowSafe(slots, byIndex, lib) && Covers(byIndex, states)
  }

  /** `@fields_by_index.key(field)+1` for the field at key `i`: the column
      after the first key holding the same field. */
  function KeyColumn(byIndex: map<nat, Field>, order: seq<nat>, i: nat): (c: Option<Column>)
    requires Ordered(byIndex, order) && i in byIndex
    ensures c.Some? && c.value.Index?
    ensures c.value.n >= 1 && c.value.n - 1 in byIndex && byIndex[c.value.n - 1] == byIndex[i]
  {
    var p := FirstKeyPos(byIndex, order, byIndex[i]);
    assert p.Some? by { assert i in order; }
    assert order[p.value] in order;
    Some(Index(order[p.value] + 1))
  }

  /** The key behind that column is the first key in insertion order that
      holds the field, as `Hash#key` returns. */
  lemma KeyColumnFirst(byIndex: map<nat, Field>, order: seq<nat>, i: nat)
    requires Ordered(byIndex, order) && i in byIndex
    ensures exists p ::
      && 0 <= p < |order| && order[p] == KeyColumn(byIndex, order, i).value.n - 1
      && forall q :: 0 <= q < p ==> byIndex[order[q]] != byIndex[i]
  {
    assert i in order;
    var p := FirstKeyPos(byIndex, order, byIndex[i]);
    assert order[p.value] == KeyColumn(byIndex, order, i).value.n - 1;
  }

  /** The errors of the `validate_column(value || "", row, key+1)` call for
      mapped slot `i`, given the field states before it: at most six. */
  function SlotErrors(slots: seq<Option<string>>, byIndex: map<nat, Field>, order: seq<nat>, lib: Library,
                      row: Option<int>, states: map<Field, FieldState>, i: nat): (r: seq<Diagnostic>)
    requires RowReady(slots, byIndex, order, lib, states)
    requires i < |slots| && i in byIndex
    ensures |r| <= 6
  {
    var f := byIndex[i];
    ColumnErrors(f.constraints, f.rule, lib, states[f].uniques, Some(slots[i].GetOr("")), row, KeyColumn(byIndex, order, i))
  }

  /** `build_warnings(:extra_column, :schema, row, i)`: the 0-based slot. */
  function ExtraColumnWarning(row: Option<int>, i: nat): Diagnostic {
    SchemaDiagnostic(ExtraColumn, row, Some(Index(i)), None)
  }

  /** One pass of the loop over the slots: it only appends diagnostics, and
      an unmapped slot leaves every field state alone. */
  function RowStep(slots: seq<Option<string>>, byIndex: map<nat, Field>, order: seq<nat>, lib: Library,
                   row: Option<int>, log: RowLog, i: nat): (r: RowLog)
    requires RowReady(slots, byIndex, order, lib, log.states)
    requires i < |slots|
    ensures RowReady(slots, byIndex, order, lib, r.states)
    ensures |log.errors| <= |r.errors| && r.errors[..|log.errors|] == log.errors
    ensures |log.warnings| <= |r.warnings| && r.warnings[..|log.warnings|] == log.warnings
    ensures i !in byIndex ==> r.states == log.states && r.errors == log.errors
  {
    if i in byIndex then
      var f := byIndex[i];
      var value := Some(slots[i].GetOr(""));
      var errs := SlotErrors(slots, byIndex, order, lib, row, log.states, i);
      var state := FieldState(UniquesAfter(f.constraints, log.states[f].uniques, value), errs, []);
      RowLog(log.errors + errs, log.warnings + state.warnings, log.states[f := state])
    else
      log.(warnings := log.warnings + [ExtraColumnWarning(row, i)])
  }

  /** The loop over the first `n` slots, from the field states `states0`. */
  function RowScan(slots: seq<Option<string>>, byIndex: map<nat, Field>, order: seq<nat>, lib: Library,
                   row: Option<int>, states0: map<Field, FieldState>, n: nat): (r: RowLog)
    requires RowReady(slots, byIndex, order, lib, states0)
    requires n <= |slots|
    ensures RowReady(slots, byIndex, order, lib, r.states)
  {
    if n == 0 then RowLog([], [], states0)
    else RowStep(slots, byIndex, order, lib, row, RowScan(slots, byIndex, order, lib, row, states0, n - 1), n - 1)
  }

  /** `build_warnings(:missing_column, :schema, row, j+1, name)` */
  function MissingColumnWarning(row: Option<int>, j: nat, name: string): Diagnostic {
    SchemaDiagnostic(MissingColumn, row, Some(Index(j + 1)), Some(name))
  }

  /** The loop over the first `n` declared fields: a warning for each whose
      slot is nil or beyond the working array, so at most `n`. */
  function MissingColumnWarnings(fields: seq<Field>, slots: seq<Option<string>>, row: Option<int>, n: nat): (r: seq<Diagnostic>)
    requires n <= |fields|
    ensures |r| <= n
  {
    if n == 0 then []
    else
      MissingColumnWarnings(fields, slots, row, n - 1)
      + (if n - 1 >= |slots| || slots[n - 1].None? then [MissingColumnWarning(row, n - 1, fields[n - 1].name)] else [])
  }

  /** The working array is as long as the longer of the row and the hash;
      the slots below the hash's size copy the row and every other slot is
      nil, even where the row has a value. */
  lemma SlotsShape(values: seq<Option<string>>, mapped: nat)
    ensures |Slots(values, mapped)| == Max(|values|, mapped)
    ensures forall i :: 0 <= i < mapped && i < |values| ==> Slots(values, mapped)[i] == values[i]
    ensures forall i :: mapped <= i < |values| ==> Slots(values, mapped)[i] == None
  {
  }

  /** Row errors all come from the column checks of mapped slots and carry
      the row number. */
  lemma {:induction false} RowErrorsAreColumnErrors(slots: seq<Option<string>>, byIndex: map<nat, Field>, order: seq<nat>,
                                                    lib: Library, row: Option<int>, states0: map<Field, FieldState>, n: nat)
    requires RowReady(slots, byIndex, order, lib, states0)
    requires n <= |slots|
    ensures forall d :: d in RowScan(slots, byIndex, order, lib, row, states0, n).errors ==>
      Rank(d.kind) < 6 && d.row == row && d.content.None?
  {
    if n > 0 {
      RowErrorsAreColumnErrors(slots, byIndex, order, lib, row, states0, n - 1);
      var prev := RowScan(slots, byIndex, order, lib, row, states0, n - 1);
      if n - 1 in byIndex {
        var f := byIndex[n - 1];
        ColumnErrorsChecks(f.constraints, f.rule, lib, prev.states[f].uniques, Some(slots[n - 1].GetOr("")), row,
                           KeyColumn(byIndex, order, n - 1));
      }
    }
  }

  /** The errors of mapped slot `i`'s column check within the loop, on the
      field states the slots before it left. */
  function SlotErrorsAt(slots: seq<Option<string>>, byIndex: map<nat, Field>, order: seq<nat>,
                        lib: Library, row: Option<int>, states0: map<Field, FieldState>, i: nat): seq<Diagnostic>
    requires RowReady(slots, byIndex, order, lib, states0)
    requires i < |slots| && i in byIndex
  {
    SlotErrors(slots, byIndex, order, lib, row, RowScan(slots, byIndex, order, lib, row, states0, i).states, i)
  }

  /** The loop's errors after `n` slots: those after `n - 1`, then slot
      `n - 1`'s. */
  lemma RowErrorsStep(slots: seq<Option<string>>, byIndex: map<nat, Field>, order: seq<nat>,
                      lib: Library, row: Option<int>, states0: map<Field, FieldState>, n: nat)
    requires RowReady(slots, byIndex, order, lib, states0)
    requires 0 < n <= |slots|
    ensures RowScan(slots, byIndex, order, lib, row, states0, n).errors
         == RowScan(slots, byIndex, order, lib, row, states0, n - 1).errors
            + (if n - 1 in byIndex then SlotErrorsAt(slots, byIndex, order, lib, row, states0, n - 1) else [])
  {
    var prev := RowScan(slots, byIndex, order, lib, row, states0, n - 1);
    assert RowScan(slots, byIndex, order, lib, row, states0, n) == RowStep(slots, byIndex, order, lib, row, prev, n - 1);
  }

  /** The loop's warnings after `n` slots: those after `n - 1`, then an
      `extra_column` warning when slot `n - 1` is unmapped. */
  lemma RowWarningsStep(slots: seq<Option<string>>, byIndex: map<nat, Field>, order: seq<nat>,
                        lib: Library, row: Option<int>, states0: map<Field, FieldState>, n: nat)
    requires RowReady(slots, byIndex, order, lib, states0)
    requires 0 < n <= |slots|
    ensures RowScan(slots, byIndex, order, lib, row, states0, n).warnings
         == RowScan(slots, byIndex, order, lib, row, states0, n - 1).warnings
            + (if n - 1 in byIndex then [] else [ExtraColumnWarning(row, n - 1)])
  {
    var prev := RowScan(slots, byIndex, order, lib, row, states0, n - 1);
    assert RowScan(slots, byIndex, order, lib, row, states0, n) == RowStep(slots, byIndex, order, lib, row, prev, n - 1);
  }

  /** Slots whose column checks all pass leave the row without errors. */
  lemma {:induction false} RowValidIfSlotsPass(slots: seq<Option<string>>, byIndex: map<nat, Field>, order: seq<nat>,
                                               lib: Library, row: Option<int>, states0: map<Field, FieldState>, n: nat)
    requires RowReady(slots, byIndex, order, lib, states0)
    requires n <= |slots|
    requires forall i :: 0 <= i < n && i in byIndex ==> SlotErrorsAt(slots, byIndex, order, lib, row, states0, i) == []
    ensures RowScan(slots, byIndex, order, lib, row, states0, n).errors == []
  {
    if n > 0 {
      RowValidIfSlotsPass(slots, byIndex, order, lib, row, states0, n - 1);
      RowErrorsStep(slots, byIndex, order, lib, row, states0, n);
    }
  }

  /** A mapped slot whose column check records an error makes the row
      invalid. */
  lemma {:induction false} SlotErrorInvalidatesRow(slots: seq<Option<string>>, byIndex: map<nat, Field>, order: seq<nat>,
                                                   lib: Library, row: Option<int>, states0: map<Field, FieldState>, n: nat, i: nat)
    requires RowReady(slots, byIndex, order, lib, states0)
    requires i < n <= |slots| && i in byIndex
    requires |SlotErrorsAt(slots, byIndex, order, lib, row, states0, i)| > 0
    ensures |RowScan(slots, byIndex, order, lib, row, states0, n).errors| > 0
  {
    RowErrorsStep(slots, byIndex, order, lib, row, states0, n);
    if i < n - 1 {
      SlotErrorInvalidatesRow(slots, byIndex, order, lib, row, states0, n - 1, i);
    }
  }

  /** The row has no error exactly when every mapped slot's column check,
      run on the field states its predecessors left, has none. */
  lemma RowValidIff(slots: seq<Option<string>>, byIndex: map<nat, Field>, order: seq<nat>,
                    lib: Library, row: Option<int>, states0: map<Field, FieldState>)
    requires RowReady(slots, byIndex, order, lib, states0)
    ensures RowScan(slots, byIndex, order, lib, row, states0, |slots|).errors == [] <==>
      forall i :: 0 <= i < |slots| && i in byIndex ==> SlotErrorsAt(slots, byIndex, order, lib, row, states0, i) == []
  {
    if forall i :: 0 <= i < |slots| && i in byIndex ==> SlotErrorsAt(slots, byIndex, order, lib, row, states0, i) == [] {
      RowValidIfSlotsPass(slots, byIndex, order, lib, row, states0, |slots|);
    } else {
      var i :| 0 <= i < |slots| && i in byIndex && |SlotErrorsAt(slots, byIndex, order, lib, row, states0, i)| > 0;
      SlotErrorInvalidatesRow(slots, byIndex, order, lib, row, states0, |slots|, i);
    }
  }

  /** The `extra_column` warnings of the first `n` slots: one for each slot
      whose position is not a key. */
  function ExtraColumnWarnings(mapped: set<nat>, row: Option<int>, n: nat): seq<Diagnostic> {
    if n == 0 then []
    else ExtraColumnWarnings(mapped, row, n - 1) + (if n - 1 in mapped then [] else [ExtraColumnWarning(row, n - 1)])
  }

  /** A position that is a key, or not below `n`, has no such warning. */
  lemma {:induction false} ExtraColumnAbsent(mapped: set<nat>, row: Option<int>, n: nat, i: nat)
    requires i >= n || i in mapped
    ensures ExtraColumnWarning(row, i) !in ExtraColumnWarnings(mapped, row, n)
  {
    if n > 0 {
      ExtraColumnAbsent(mapped, row, n - 1, i);
    }
  }

  /** An unmapped position below `n` has its warning. */
  lemma {:induction false} ExtraColumnPresent(mapped: set<nat>, row: Option<int>, n: nat, i: nat)
    requires i < n && i !in mapped
    ensures ExtraColumnWarning(row, i) in ExtraColumnWarnings(mapped, row, n)
  {
    if i < n - 1 {
      ExtraColumnPresent(mapped, row, n - 1, i);
    }
  }

  /** No position has its warning twice. */
  lemma {:induction false} ExtraColumnNoRepeats(mapped: set<nat>, row: Option<int>, n: nat)
    ensures NoRepeats(ExtraColumnWarnings(mapped, row, n))
  {
    if n > 0 {
      ExtraColumnNoRepeats(mapped, row, n - 1);
      var prev := ExtraColumnWarnings(mapped, row, n - 1);
      if n - 1 in mapped {
        assert ExtraColumnWarnings(mapped, row, n) == prev;
      } else {
        ExtraColumnAbsent(mapped, row, n - 1, n - 1);
        NoRepeatsAppend(prev, ExtraColumnWarning(row, n - 1));
      }
    }
  }

  /** The slot loop's warnings are exactly the `extra_column` warnings of
      the unmapped slots, in slot order: a mapped field's own warnings are
      always empty. */
  lemma {:induction false} RowWarningsExact(slots: seq<Option<string>>, byIndex: map<nat, Field>, order: seq<nat>,
                                            lib: Library, row: Option<int>, states0: map<Field, FieldState>, n: nat)
    requires RowReady(slots, byIndex, order, lib, states0)
    requires n <= |slots|
    ensures RowScan(slots, byIndex, order, lib, row, states0, n).warnings == ExtraColumnWarnings(byIndex.Keys, row, n)
  {
    if n > 0 {
      RowWarningsExact(slots, byIndex, order, lib, row, states0, n - 1);
      RowWarningsStep(slots, byIndex, order, lib, row, states0, n);
    }
  }

  /** Every unmapped slot records one `extra_column` warning at its 0-based
      position. */
  lemma ExtraColumnsKept(slots: seq<Option<string>>, byIndex: map<nat, Field>, order: seq<nat>,
                         lib: Library, row: Option<int>, states0: map<Field, FieldState>, n: nat)
    requires RowReady(slots, byIndex, order, lib, states0)
    requires n <= |slots|
    ensures forall i :: 0 <= i < n && i !in byIndex ==>
      multiset(RowScan(slots, byIndex, order, lib, row, states0, n).warnings)[ExtraColumnWarning(row, i)] == 1
  {
    RowWarningsExact(slots, byIndex, order, lib, row, states0, n);
    ExtraColumnNoRepeats(byIndex.Keys, row, n);
    forall i | 0 <= i < n && i !in byIndex
      ensures multiset(ExtraColumnWarnings(byIndex.Keys, row, n))[ExtraColumnWarning(row, i)] == 1
    {
      ExtraColumnPresent(byIndex.Keys, row, n, i);
      NoRepeatsOnce(ExtraColumnWarnings(byIndex.Keys, row, n), ExtraColumnWarning(row, i));
    }
  }

  /** The slot loop's warnings are only those `extra_column` warnings. */
  lemma {:induction false} ExtraColumnsOnly(slots: seq<Option<string>>, byIndex: map<nat, Field>, order: seq<nat>,
                                            lib: Library, row: Option<int>, states0: map<Field, FieldState>, n: nat)
    requires RowReady(slots, byIndex, order, lib, states0)
    requires n <= |slots|
    ensures forall d :: d in RowScan(slots, byIndex, order, lib, row, states0, n).warnings ==>
      d.kind == ExtraColumn && d.column.Some? && d.column.value.Index? && 0 <= d.column.value.n < n
      && d.column.value.n !in byIndex && d == ExtraColumnWarning(row, d.column.value.n)
  {
    if n > 0 {
      ExtraColumnsOnly(slots, byIndex, order, lib, row, states0, n - 1);
    }
  }

  /** Seen-value sets only grow over the row, and a field no slot maps to is
      left alone. */
  lemma {:induction false} RowUniquesGrow(slots: seq<Option<string>>, byIndex: map<nat, Field>, order: seq<nat>,
                                          lib: Library, row: Option<int>, states0: map<Field, FieldState>, n: nat)
    requires RowReady(slots, byIndex, order, lib, states0)
    requires n <= |slots|
    ensures forall f :: f in states0 ==>
      f in RowScan(slots, byIndex, order, lib, row, states0, n).states
      && states0[f].uniques <= RowScan(slots, byIndex, order, lib, row, states0, n).states[f].uniques
    ensures forall f :: f in states0 && (forall i :: 0 <= i < n && i in byIndex ==> byIndex[i] != f) ==>
      RowScan(slots, byIndex, order, lib, row, states0, n).states[f] == states0[f]
  {
    if n > 0 {
      RowUniquesGrow(slots, byIndex, order, lib, row, states0, n - 1);
      var prev := RowScan(slots, byIndex, order, lib, row, states0, n - 1);
      assert RowScan(slots, byIndex, order, lib, row, states0, n) == RowStep(slots, byIndex, order, lib, row, prev, n - 1);
    }
  }

  /** A field the hash holds under the single key `i` is validated with
      column `i+1`, whatever order the keys were stored in. */
  lemma FreshKeyColumn(byIndex: map<nat, Field>, order: seq<nat>, i: nat)
    requires Ordered(byIndex, order)
    requires i in byIndex
    requires forall k :: k in byIndex && byIndex[k] == byIndex[i] ==> k == i
    ensures KeyColumn(byIndex, order, i) == Some(Index(i + 1))
  {
    assert i in order;
    var p := FirstKeyPos(byIndex, order, byIndex[i]);
    assert order[p.value] in order;
  }

  /** After one `validate_header` on a fresh schema, a field is validated
      with the column after the smallest header position that holds it. */
  lemma FreshHeaderKeyColumn(fields: seq<Field>, header: seq<string>, i: nat)
    requires i in HeaderMap(fields, header, map[], [], |header|).0
    ensures Ordered(HeaderMap(fields, header, map[], [], |header|).0, HeaderMap(fields, header, map[], [], |header|).1)
    ensures var (m, order) := HeaderMap(fields, header, map[], [], |header|);
      var c := KeyColumn(m, order, i).value.n;
      && c - 1 in m && m[c - 1] == m[i]
      && forall k :: k in m && m[k] == m[i] ==> c - 1 <= k
  {
    var (m, order) := HeaderMap(fields, header, map[], [], |header|);
    HeaderMapOrdered(fields, header, map[], [], |header|);
    FreshHeaderMapIncreasing(fields, header, |header|);
    forall k | k in m && m[k] == m[i]
      ensures KeyColumn(m, order, i).value.n - 1 <= k
    {
      KeyIsSmallest(m, order, k);
    }
  }

  /** Declared field `j` gets a `missing_column` warning at `j+1` exactly
      when its slot is nil or beyond the working array. */
  lemma {:induction false} MissingColumnsKept(fields: seq<Field>, slots: seq<Option<string>>, row: Option<int>, n: nat)
    requires n <= |fields|
    ensures forall j :: 0 <= j < n && (j >= |slots| || slots[j].None?) ==>
      multiset(MissingColumnWarnings(fields, slots, row, n))[MissingColumnWarning(row, j, fields[j].name)] == 1
  {
    if n > 0 {
      MissingColumnsKept(fields, slots, row, n - 1);
      MissingColumnsOnly(fields, slots, row, n - 1);
      assert MissingColumnWarning(row, n - 1, fields[n - 1].name) !in MissingColumnWarnings(fields, slots, row, n - 1);
    }
  }

  /** The `missing_column` warnings are only those. */
  lemma {:induction false} MissingColumnsOnly(fields: seq<Field>, slots: seq<Option<string>>, row: Option<int>, n: nat)
    requires n <= |fields|
    ensures forall d :: d in MissingColumnWarnings(fields, slots, row, n) ==>
      && d.kind == MissingColumn && d.column.Some? && d.column.value.Index? && 1 <= d.column.value.n <= n
      && var j := d.column.value.n - 1;
         (j >= |slots| || slots[j].None?) && d == MissingColumnWarning(row, j, fields[j].name)
  {
    if n > 0 {
      MissingColumnsOnly(fields, slots, row, n - 1);
    }
  }
}
