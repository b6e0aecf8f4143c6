/** `Csvlint::Schema`: the declared fields, the hash from header positions
    to fields that `validate_header` fills and `validate_row` reads, and the
    diagnostics of the last call. */
module Schemas {
  import opened Diagnostics
  import opened Columns
  import opened Fields
  import opened IndexMaps
  import opened Headers
  import opened Rows

  /** `values_array` in `validate_row`: a nil per value of the row, then the
      first `mapped` slots are overwritten by the row's value there (nil past
      the row's end), growing the array when the hash is the larger. */
  method BuildValuesArray(values: seq<Option<string>>, mapped: nat) returns (slots: seq<Option<string>>)
    ensures slots == Slots(values, mapped)
  {
    slots := seq(|values|, _ => None);
    var i := 0;
    while i < mapped
      invariant i <= mapped
      invariant |slots| == Max(|values|, i)
      invariant forall j :: 0 <= j < |slots| ==> slots[j] == (if j < i && j < |values| then values[j] else None)
    {
      var v := if i < |values| then values[i] else None;
      if i < |slots| {
        slots := slots[i := v];
      } else {
        slots := slots + [v];
      }
      i := i + 1;
    }
  }

  class Schema {
    const uri: string
    const fields: seq<Field>
    const title: Option<string>
    const description: Option<string>
    /** `@fields_by_index`, with its keys in insertion order. */
    var byIndex: map<nat, Field>
    var order: seq<nat>
    var errors: seq<Diagnostic>
    var warnings: seq<Diagnostic>

    ghost predicate Valid()
      reads this`byIndex, this`order
    {
      Ordered(byIndex, order)
    }

    /** What `validate_column` has left in each field the hash holds. */
    ghost function States(): map<Field, FieldState>
      reads this`byIndex, byIndex.Values
    {
      map f | f in byIndex.Values :: FieldState(f.uniques, f.errors, f.warnings)
    }

    /** `Schema.new(uri, fields, title, description)` */
    constructor (uri: string, fields: seq<Field>, title: Option<string>, description: Option<string>)
      ensures Valid()
      ensures this.uri == uri && this.fields == fields
      ensures this.title == title && this.description == description
      ensures byIndex == map[] && order == []
      ensures errors == [] && warnings == []
    {
      this.uri := uri;
      this.fields := fields;
      this.title := title;
      this.description := description;
      byIndex, order := map[], [];
      errors, warnings := [], [];
    }

    /** `validate_header(header)`: maps each header position whose name
        matches a field, then warns about every field the hash does not hold;
        answers whether no error was recorded. The hash keeps what earlier
        calls stored. */
    method ValidateHeader(header: seq<string>) returns (ok: bool)
      requires Valid() && HeaderSafe(fields, header)
      modifies this
      ensures Valid()
      ensures (byIndex, order) == HeaderMap(fields, header, old(byIndex), old(order), |header|)
      ensures errors == HeaderErrors(fields, header, |header|)
      ensures warnings == HeaderWarnings(fields, header, |header|) + MissingHeaderWarnings(fields, byIndex.Values, |fields|)
      ensures ok <==> errors == []
    {
      errors, warnings := [], [];
      var i := 0;
      while i < |header|
        invariant i <= |header|
        invariant (byIndex, order) == HeaderMap(fields, header, old(byIndex), old(order), i)
        invariant Valid()
        invariant errors == HeaderErrors(fields, header, i)
        invariant warnings == HeaderWarnings(fields, header, i)
      {
        CheckHeaderName(header, i);
        i := i + 1;
      }
      WarnMissingHeaders();
      ok := |errors| == 0;
    }

    /** Header name `i`: stored under its position when it matches a field,
        and otherwise a missing required header or an extra one. */
    method CheckHeaderName(header: seq<string>, i: nat)
      requires Valid() && HeaderSafe(fields, header) && i < |header|
      modifies this`byIndex, this`order, this`errors, this`warnings
      ensures Valid()
      ensures (byIndex, order) == match MatchIndex(fields, header[i])
                                  case None => (old(byIndex), old(order))
                                  case Some(k) => Store(old(byIndex), old(order), i, fields[k])
      ensures errors == old(errors) + StepErrors(fields, header, i)
      ensures warnings == old(warnings) + StepWarnings(fields, header, i)
    {
      var name := header[i];
      var k := MatchIndex(fields, name);
      if k.Some? {
        if i !in byIndex {
          order := order + [i];
        }
        byIndex := byIndex[i := fields[k.value]];
        if fields[i].name != name {
          warnings := warnings + [HeaderWarning(DifferentIndexHeader, i, name)];
        }
      } else if i < |fields| && fields[i].constraints.required.Truthy() {
        errors := errors + [MissingHeaderError(fields[i].name)];
      } else {
        warnings := warnings + [HeaderWarning(ExtraHeader, i, name)];
      }
    }

    /** `(fields - @fields_by_index.values).each`: a `missing_header` warning
        for every declared field the hash does not hold. */
    method WarnMissingHeaders()
      modifies this`warnings
      ensures warnings == old(warnings) + MissingHeaderWarnings(fields, byIndex.Values, |fields|)
    {
      var j := 0;
      while j < |fields|
        invariant j <= |fields|
        invariant warnings == old(warnings) + MissingHeaderWarnings(fields, byIndex.Values, j)
      {
        if fields[j] !in byIndex.Values {
          warnings := warnings + [HeaderWarning(MissingHeader, FirstIndexOf(fields, fields[j]), fields[j].name)];
        }
        j := j + 1;
      }
    }

    /** `validate_row(values, row)`: checks every mapped slot with its field,
        collecting the field's diagnostics, warns about every unmapped slot
        and every declared field without a value, and answers whether no
        error was recorded. Only the fields the hash holds change. */
    method ValidateRow(values: seq<Option<string>>, row: Option<int>, lib: Library) returns (ok: bool)
      requires Valid() && RowSafe(Slots(values, |byIndex|), byIndex, lib)
      modifies this`errors, this`warnings, byIndex.Values
      ensures var slots := Slots(values, |byIndex|);
        var log := RowScan(slots, byIndex, order, lib, row, old(States()), |slots|);
        && errors == log.errors
        && warnings == log.warnings + MissingColumnWarnings(fields, slots, row, |fields|)
        && Tracks(log)
      ensures ok <==> errors == []
    {
      ghost var states0 := States();
      ok := ScanRow(values, row, lib, states0);
    }

    /** `validate_row`'s body, from the field states `states0` it starts on. */
    method ScanRow(values: seq<Option<string>>, row: Option<int>, lib: Library, ghost states0: map<Field, FieldState>)
      returns (ok: bool)
      requires Valid() && RowSafe(Slots(values, |byIndex|), byIndex, lib) && Tracks(RowLog([], [], states0))
      modifies this`errors, this`warnings, byIndex.Values
      ensures var slots := Slots(values, |byIndex|);
        && RowReady(slots, byIndex, order, lib, states0)
        && var log := RowScan(slots, byIndex, order, lib, row, states0, |slots|);
        && errors == log.errors
        && warnings == log.warnings + MissingColumnWarnings(fields, slots, row, |fields|)
        && Tracks(log)
      ensures ok <==> errors == []
    {
      errors, warnings := [], [];
      var slots, log := ScanSlots(values, row, lib, states0);
      WarnMissingColumns(slots, row);
      ok := |errors| == 0;
    }

    /** Builds the working array and runs the loop over its slots, from
        empty diagnostics. */
    method ScanSlots(values: seq<Option<string>>, row: Option<int>, lib: Library, ghost states0: map<Field, FieldState>)
      returns (slots: seq<Option<string>>, ghost log: RowLog)
      requires Valid() && RowSafe(Slots(values, |byIndex|), byIndex, lib)
      requires Tracks(RowLog([], [], states0)) && errors == [] && warnings == []
      modifies this`errors, this`warnings, byIndex.Values
      ensures slots == Slots(values, |byIndex|) && RowReady(slots, byIndex, order, lib, states0)
      ensures log == RowScan(slots, byIndex, order, lib, row, states0, |slots|)
      ensures errors == log.errors && warnings == log.warnings && Tracks(log)
    {
      slots := BuildValuesArray(values, |byIndex|);
      assert RowReady(slots, byIndex, order, lib, states0);
      log := RowLog([], [], states0);
      var i := 0;
      while i < |slots|
        invariant i <= |slots|
        invariant log == RowScan(slots, byIndex, order, lib, row, states0, i)
        invariant errors == log.errors && warnings == log.warnings
        invariant Tracks(log)
      {
        log := ScanSlot(slots, row, lib, states0, log, i);
        i := i + 1;
      }
    }

    /** `log` holds the state of every field the hash holds. */
    ghost predicate Tracks(log: RowLog)
      reads this`byIndex, byIndex.Values
    {
      forall f :: f in byIndex.Values ==> f in log.states && log.states[f] == FieldState(f.uniques, f.errors, f.warnings)
    }

    /** One pass of the loop over the slots, as the next step of `RowScan`. */
    method ScanSlot(slots: seq<Option<string>>, row: Option<int>, lib: Library,
                    ghost states0: map<Field, FieldState>, ghost log: RowLog, i: nat)
      returns (ghost next: RowLog)
      requires Valid() && RowReady(slots, byIndex, order, lib, states0) && i < |slots|
      requires log == RowScan(slots, byIndex, order, lib, row, states0, i)
      requires Tracks(log) && errors == log.errors && warnings == log.warnings
      modifies this`errors, this`warnings, byIndex.Values
      ensures next == RowScan(slots, byIndex, order, lib, row, states0, i + 1)
      ensures Tracks(next) && errors == next.errors && warnings == next.warnings
    {
      next := CheckSlot(slots, row, lib, log, i);
    }

    /** Slot `i`: a mapped slot is checked by its field, whose diagnostics
        are appended; an unmapped one is an extra column. */
    method CheckSlot(slots: seq<Option<string>>, row: Option<int>, lib: Library, ghost log: RowLog, i: nat)
      returns (ghost next: RowLog)
      requires Valid() && RowSafe(slots, byIndex, lib) && i < |slots|
      requires Tracks(log) && errors == log.errors && warnings == log.warnings
      modifies this`errors, this`warnings, byIndex.Values
      ensures RowReady(slots, byIndex, order, lib, log.states)
      ensures next == RowStep(slots, byIndex, order, lib, row, log, i)
      ensures Tracks(next) && errors == next.errors && warnings == next.warnings
    {
      assert RowReady(slots, byIndex, order, lib, log.states);
      next := RowStep(slots, byIndex, order, lib, row, log, i);
      if i in byIndex {
        var f := byIndex[i];
        var column := KeyColumn(byIndex, order, i);
        var _ := f.ValidateColumn(Some(slots[i].GetOr("")), row, column, lib);
        errors := errors + f.errors;
        warnings := warnings + f.warnings;
      } else {
        warnings := warnings + [ExtraColumnWarning(row, i)];
      }
    }

    /** `fields.each_with_index`: a `missing_column` warning for every
        declared field whose slot is nil or past the working array. */
    method WarnMissingColumns(slots: seq<Option<string>>, row: Option<int>)
      modifies this`warnings
      ensures warnings == old(warnings) + MissingColumnWarnings(fields, slots, row, |fields|)
    {
      var j := 0;
      while j < |fields|
        invariant j <= |fields|
        invariant warnings == old(warnings) + MissingColumnWarnings(fields, slots, row, j)
      {
        if j >= |slots| || slots[j].None? {
          warnings := warnings + [MissingColumnWarning(row, j, fields[j].name)];
        }
        j := j + 1;
      }
    }
  }
}
