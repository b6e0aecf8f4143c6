/** What `Schema#validate_header` computes, as functions of the declared
    fields and the header: the positions it stores in `@fields_by_index`,
    the errors and warnings of the loop over the header, and the
    `missing_header` warnings for the declared fields left unmatched. */
module Headers {
  import opened Diagnostics
  import opened Columns
  import opened Fields
  import opened IndexMaps

  function LowerChar(c: char): char {
    if 'A' <= c <= 'Z' then (c as int + 32) as char else c
  }

  /** `downcase` on the ASCII letters: each upper-case ASCII letter becomes
      its lower-case partner, every other character is kept. */
  function Lower(s: string): (r: string)
    ensures |r| == |s|
    ensures forall i :: 0 <= i < |s| && 'A' <= s[i] <= 'Z' ==> r[i] == (s[i] as int + 32) as char
    ensures forall i :: 0 <= i < |r| ==> !('A' <= r[i] <= 'Z')
    ensures forall i :: 0 <= i < |s| && !('A' <= s[i] <= 'Z') ==> r[i] == s[i]
  {
    seq(|s|, i requires 0 <= i < |s| => LowerChar(s[i]))
  }

  /** `a.downcase == b.downcase`: equal names match, and only names of one
      length match. */
  predicate SameName(a: string, b: string)
    ensures a == b ==> SameName(a, b)
    ensures SameName(a, b) ==> |a| == |b|
  {
    Lower(a) == Lower(b)
  }

  /** Two characters that are equal or differ only in ASCII letter case. */
  predicate CaseOnly(x: char, y: char) {
    || x == y
    || ('A' <= x <= 'Z' && y == (x as int + 32) as char)
    || ('A' <= y <= 'Z' && x == (y as int + 32) as char)
  }

  /** Names match exactly when they have one length and differ at each
      position at most in ASCII letter case. */
  lemma SameNameIff(a: string, b: string)
    ensures SameName(a, b) <==> |a| == |b| && forall i :: 0 <= i < |a| ==> CaseOnly(a[i], b[i])
  {
    if |a| == |b| && forall i :: 0 <= i < |a| ==> CaseOnly(a[i], b[i]) {
      forall i | 0 <= i < |a| ensures Lower(a)[i] == Lower(b)[i] {
        assert CaseOnly(a[i], b[i]);
      }
    }
    if SameName(a, b) {
      forall i | 0 <= i < |a| ensures CaseOnly(a[i], b[i]) {
        assert Lower(a)[i] == Lower(b)[i];
      }
    }
  }

  /** `fields.find { |field| field.name.downcase == name.downcase }`, as the
      position of the field it finds. */
  function MatchIndex(fields: seq<Field>, name: string): (r: Option<nat>)
    ensures r.Some? ==> r.value < |fields|
  {
    if fields == [] then None
    else if SameName(fields[0].name, name) then Some(0)
    else
      match MatchIndex(fields[1..], name)
      case None => None
      case Some(k) => Some(k + 1)
  }

  /** The position found is the first whose name matches, and none is found
      only when no name matches. */
  lemma {:induction false} MatchIndexFirst(fields: seq<Field>, name: string)
    ensures var r := MatchIndex(fields, name);
      && (r.Some? ==> SameName(fields[r.value].name, name))
      && (r.Some? ==> forall j :: 0 <= j < r.value ==> !SameName(fields[j].name, name))
      && (r.None? <==> forall j :: 0 <= j < |fields| ==> !SameName(fields[j].name, name))
  {
    if fields != [] && !SameName(fields[0].name, name) {
      MatchIndexFirst(fields[1..], name);
      assert forall j :: 1 <= j < |fields| ==> fields[j] == fields[1..][j - 1];
    }
  }

  /** `fields.index(field)`: the first position holding this very field. */
  function FirstIndexOf(fields: seq<Field>, f: Field): (r: nat)
    requires f in fields
    ensures r < |fields| && fields[r] == f
    ensures forall j :: 0 <= j < r ==> fields[j] != f
  {
    if fields[0] == f then 0 else 1 + FirstIndexOf(fields[1..], f)
  }

  /** A header on which `validate_header` does not crash: a name matched at
      position `i` reads `fields[i].name`, so `fields[i]` must exist. */
  predicate HeaderSafe(fields: seq<Field>, header: seq<string>) {
    forall i :: 0 <= i < |header| && MatchIndex(fields, header[i]).Some? ==> i < |fields|
  }

  /** Header name `i` matches no field, and the field declared at `i` has a
      truthy `required` constraint. */
  predicate MissingRequiredAt(fields: seq<Field>, header: seq<string>, i: nat)
    requires i < |header|
  {
    MatchIndex(fields, header[i]).None? && i < |fields| && fields[i].constraints.required.Truthy()
  }

  /** `build_errors(:missing_header, :schema, nil, name)`: the field name goes
      into the column slot. */
  function MissingHeaderError(name: string): Diagnostic {
    SchemaDiagnostic(MissingHeader, None, Some(Name(name)), None)
  }

  /** `build_warnings(kind, :schema, nil, i+1, name)` */
  function HeaderWarning(kind: Kind, i: nat, name: string): Diagnostic {
    SchemaDiagnostic(kind, None, Some(Index(i + 1)), Some(name))
  }

  /** The error recorded for header position `i`, if any: at most one. */
  function StepErrors(fields: seq<Field>, header: seq<string>, i: nat): (r: seq<Diagnostic>)
    requires i < |header|
    ensures |r| <= 1
  {
    if MissingRequiredAt(fields, header, i) then [MissingHeaderError(fields[i].name)] else []
  }

  /** The warning recorded for header position `i`, if any: at most one. */
  function StepWarnings(fields: seq<Field>, header: seq<string>, i: nat): (r: seq<Diagnostic>)
    requires HeaderSafe(fields, header) && i < |header|
    ensures |r| <= 1
  {
    if MatchIndex(fields, header[i]).Some? then
      if fields[i].name != header[i] then [HeaderWarning(DifferentIndexHeader, i, header[i])] else []
    else if MissingRequiredAt(fields, header, i) then []
    else [HeaderWarning(ExtraHeader, i, header[i])]
  }

  /** The errors of the loop over the first `n` header names: at most one
      per name. */
  function HeaderErrors(fields: seq<Field>, header: seq<string>, n: nat): (r: seq<Diagnostic>)
    requires n <= |header|
    ensures |r| <= n
  {
    if n == 0 then [] else HeaderErrors(fields, header, n - 1) + StepErrors(fields, header, n - 1)
  }

  /** The warnings of the loop over the first `n` header names: at most
      one per name. */
  function HeaderWarnings(fields: seq<Field>, header: seq<string>, n: nat): (r: seq<Diagnostic>)
    requires HeaderSafe(fields, header) && n <= |header|
    ensures |r| <= n
  {
    if n == 0 then [] else HeaderWarnings(fields, header, n - 1) + StepWarnings(fields, header, n - 1)
  }

  /** `@fields_by_index` after the loop over the first `n` header names,
      starting from what earlier calls left in it: no key is removed, and
      every new key is a position of the header. */
  function HeaderMap(fields: seq<Field>, header: seq<string>, m: map<nat, Field>, order: seq<nat>, n: nat)
    : (r: (map<nat, Field>, seq<nat>))
    requires n <= |header|
    ensures forall k :: k in m ==> k in r.0
    ensures forall k :: k in r.0 ==> k in m || k < n
  {
    if n == 0 then (m, order)
    else
      var prev := HeaderMap(fields, header, m, order, n - 1);
      match MatchIndex(fields, header[n - 1])
      case None => prev
      case Some(k) => Store(prev.0, prev.1, n - 1, fields[k])
  }

  /** The `missing_header` warnings for the first `n` declared fields: one for
      each field that is not a value of the hash, so at most `n`. */
  function MissingHeaderWarnings(fields: seq<Field>, mapped: set<Field>, n: nat): (r: seq<Diagnostic>)
    requires n <= |fields|
    ensures |r| <= n
  {
    if n == 0 then []
    else
      MissingHeaderWarnings(fields, mapped, n - 1)
      + (if fields[n - 1] !in mapped
         then [HeaderWarning(MissingHeader, FirstIndexOf(fields, fields[n - 1]), fields[n - 1].name)]
         else [])
  }

  /** The loop keeps the hash's order of insertion a list of its keys. */
  lemma {:induction false} HeaderMapOrdered(fields: seq<Field>, header: seq<string>, m: map<nat, Field>, order: seq<nat>, n: nat)
    requires n <= |header|
    requires Ordered(m, order)
    ensures Ordered(HeaderMap(fields, header, m, order, n).0, HeaderMap(fields, header, m, order, n).1)
  {
    if n > 0 {
      HeaderMapOrdered(fields, header, m, order, n - 1);
    }
  }

  /** The hash's keys after the loop: the keys earlier calls stored and the
      header positions whose name matches a field; an unmatched position gets
      no new entry. */
  lemma {:induction false} HeaderMapKeys(fields: seq<Field>, header: seq<string>, m: map<nat, Field>, order: seq<nat>, n: nat)
    requires n <= |header|
    ensures var r := HeaderMap(fields, header, m, order, n);
      forall i: nat :: i in r.0 <==> i in m || (i < n && MatchIndex(fields, header[i]).Some?)
  {
    if n > 0 {
      HeaderMapKeys(fields, header, m, order, n - 1);
      var prev := HeaderMap(fields, header, m, order, n - 1);
      var r := HeaderMap(fields, header, m, order, n);
      match MatchIndex(fields, header[n - 1])
      case None =>
        assert r == prev;
      case Some(k) =>
        assert r == Store(prev.0, prev.1, n - 1, fields[k]);
    }
  }

  /** The hash's values after the loop: a matched position `i` holds the
      first field whose name matches header name `i` case-insensitively, and
      every other key keeps what earlier calls stored. */
  lemma {:induction false} HeaderMapValues(fields: seq<Field>, header: seq<string>, m: map<nat, Field>, order: seq<nat>, n: nat)
    requires n <= |header|
    ensures var r := HeaderMap(fields, header, m, order, n);
      forall i: nat :: i in r.0 && i < n && MatchIndex(fields, header[i]).Some? ==>
        r.0[i] == fields[MatchIndex(fields, header[i]).value]
    ensures var r := HeaderMap(fields, header, m, order, n);
      forall i: nat :: i in r.0 && !(i < n && MatchIndex(fields, header[i]).Some?) ==> i in m && r.0[i] == m[i]
  {
    if n > 0 {
      HeaderMapValues(fields, header, m, order, n - 1);
      var prev := HeaderMap(fields, header, m, order, n - 1);
      var r := HeaderMap(fields, header, m, order, n);
      match MatchIndex(fields, header[n - 1])
      case None =>
        assert r == prev;
      case Some(k) =>
        assert r == Store(prev.0, prev.1, n - 1, fields[k]);
    }
  }

  /** One `validate_header` on an empty hash stores the keys in increasing
      order. */
  lemma {:induction false} FreshHeaderMapIncreasing(fields: seq<Field>, header: seq<string>, n: nat)
    requires n <= |header|
    ensures var r := HeaderMap(fields, header, map[], [], n);
      Increasing(r.1) && forall k :: k in r.1 ==> k < n
  {
    if n > 0 {
      FreshHeaderMapIncreasing(fields, header, n - 1);
      var prev := HeaderMap(fields, header, map[], [], n - 1);
      var r := HeaderMap(fields, header, map[], [], n);
      match MatchIndex(fields, header[n - 1])
      case None =>
        assert r == prev;
      case Some(k) =>
        HeaderMapKeys(fields, header, map[], [], n - 1);
        assert (n - 1) !in prev.0;
        assert r.1 == prev.1 + [n - 1];
        forall p | 0 <= p < |prev.1|
          ensures r.1[p] < n - 1
        {
          assert prev.1[p] in prev.1;
        }
    }
  }

  /** The errors are exactly the `missing_header` errors of the positions
      whose name matches nothing while the field declared there is required. */
  lemma {:induction false} HeaderErrorsExact(fields: seq<Field>, header: seq<string>, n: nat)
    requires n <= |header|
    ensures forall i :: 0 <= i < n && MissingRequiredAt(fields, header, i) ==>
      MissingHeaderError(fields[i].name) in HeaderErrors(fields, header, n)
    ensures forall d :: d in HeaderErrors(fields, header, n) ==>
      exists i :: 0 <= i < n && MissingRequiredAt(fields, header, i) && d == MissingHeaderError(fields[i].name)
  {
    if n > 0 {
      HeaderErrorsExact(fields, header, n - 1);
    }
  }

  /** No position with a missing required header name, no error. */
  lemma {:induction false} HeaderErrorsNone(fields: seq<Field>, header: seq<string>, n: nat)
    requires n <= |header|
    requires forall i :: 0 <= i < n ==> !MissingRequiredAt(fields, header, i)
    ensures HeaderErrors(fields, header, n) == []
  {
    if n > 0 {
      HeaderErrorsNone(fields, header, n - 1);
    }
  }

  /** The header loop records no error exactly when no required field's
      position holds an unmatched name; warnings play no part. */
  lemma HeaderValidIff(fields: seq<Field>, header: seq<string>)
    ensures HeaderErrors(fields, header, |header|) == [] <==>
      forall i :: 0 <= i < |header| ==> !MissingRequiredAt(fields, header, i)
  {
    HeaderErrorsExact(fields, header, |header|);
    if forall i :: 0 <= i < |header| ==> !MissingRequiredAt(fields, header, i) {
      HeaderErrorsNone(fields, header, |header|);
    }
  }

  /** A warning recorded at a position is kept in the warnings of the loop. */
  lemma {:induction false} HeaderWarningKept(fields: seq<Field>, header: seq<string>, n: nat, i: nat, d: Diagnostic)
    requires HeaderSafe(fields, header) && i < n <= |header|
    requires d in StepWarnings(fields, header, i)
    ensures d in HeaderWarnings(fields, header, n)
  {
    if i < n - 1 {
      HeaderWarningKept(fields, header, n - 1, i, d);
    }
  }

  /** No position records a warning, no warning. */
  lemma {:induction false} HeaderWarningsNone(fields: seq<Field>, header: seq<string>, n: nat)
    requires HeaderSafe(fields, header) && n <= |header|
    requires forall i :: 0 <= i < n ==> StepWarnings(fields, header, i) == []
    ensures HeaderWarnings(fields, header, n) == []
  {
    if n > 0 {
      HeaderWarningsNone(fields, header, n - 1);
      assert StepWarnings(fields, header, n - 1) == [];
    }
  }

  /** Every warning of the loop carries the column `i+1` of the position `i`
      that recorded it. */
  lemma {:induction false} HeaderWarningOrigin(fields: seq<Field>, header: seq<string>, n: nat, d: Diagnostic)
    requires HeaderSafe(fields, header) && n <= |header|
    requires d in HeaderWarnings(fields, header, n)
    ensures d.column.Some? && d.column.value.Index? && 1 <= d.column.value.n <= n
    ensures d in StepWarnings(fields, header, d.column.value.n - 1)
  {
    if d !in StepWarnings(fields, header, n - 1) {
      HeaderWarningOrigin(fields, header, n - 1, d);
    }
  }

  /** An unmatched name records an `extra_header` warning at `i+1` with the
      name as content, unless the field declared at `i` is required. */
  lemma ExtraHeaderIff(fields: seq<Field>, header: seq<string>, i: nat)
    requires HeaderSafe(fields, header) && i < |header|
    ensures HeaderWarning(ExtraHeader, i, header[i]) in HeaderWarnings(fields, header, |header|) <==>
      MatchIndex(fields, header[i]).None? && !MissingRequiredAt(fields, header, i)
  {
    var w := HeaderWarning(ExtraHeader, i, header[i]);
    if w in HeaderWarnings(fields, header, |header|) {
      HeaderWarningOrigin(fields, header, |header|, w);
    }
    if MatchIndex(fields, header[i]).None? && !MissingRequiredAt(fields, header, i) {
      assert w in StepWarnings(fields, header, i);
      HeaderWarningKept(fields, header, |header|, i, w);
    }
  }

  /** A matched name records a `different_index_header` warning at `i+1`
      exactly when it differs from the name of the field declared at `i`,
      which may be another field than the one it matched; it records no
      `extra_header` warning and no error, and the field it matched is a
      value of the hash, so it draws no `missing_header` warning. */
  lemma MatchedHeader(fields: seq<Field>, header: seq<string>, m: map<nat, Field>, order: seq<nat>, i: nat)
    requires HeaderSafe(fields, header) && i < |header|
    requires MatchIndex(fields, header[i]).Some?
    ensures HeaderWarning(DifferentIndexHeader, i, header[i]) in HeaderWarnings(fields, header, |header|) <==>
      fields[i].name != header[i]
    ensures HeaderWarning(ExtraHeader, i, header[i]) !in HeaderWarnings(fields, header, |header|)
    ensures StepErrors(fields, header, i) == []
    ensures var k := MatchIndex(fields, header[i]).value;
      var mapped := HeaderMap(fields, header, m, order, |header|).0.Values;
      && fields[k] in mapped
      && HeaderWarning(MissingHeader, k, fields[k].name) !in MissingHeaderWarnings(fields, mapped, |fields|)
  {
    var w := HeaderWarning(DifferentIndexHeader, i, header[i]);
    var x := HeaderWarning(ExtraHeader, i, header[i]);
    if w in HeaderWarnings(fields, header, |header|) {
      HeaderWarningOrigin(fields, header, |header|, w);
    }
    if fields[i].name != header[i] {
      assert w in StepWarnings(fields, header, i);
      HeaderWarningKept(fields, header, |header|, i, w);
    }
    if x in HeaderWarnings(fields, header, |header|) {
      HeaderWarningOrigin(fields, header, |header|, x);
    }
    var k := MatchIndex(fields, header[i]).value;
    var r := HeaderMap(fields, header, m, order, |header|);
    HeaderMapKeys(fields, header, m, order, |header|);
    HeaderMapValues(fields, header, m, order, |header|);
    assert i in r.0 && r.0[i] == fields[k];
    MissingHeaderWarningsExact(fields, r.0.Values, |fields|);
    forall j | 0 <= j < |fields| && fields[j] !in r.0.Values
      ensures HeaderWarning(MissingHeader, FirstIndexOf(fields, fields[j]), fields[j].name)
              != HeaderWarning(MissingHeader, k, fields[k].name)
    {
      assert fields[FirstIndexOf(fields, fields[j])] != fields[k];
    }
  }

  /** The `missing_header` warnings: one per declared field outside `mapped`,
      at the column after its first position, with its name as content, and
      nothing else. */
  lemma {:induction false} MissingHeaderWarningsExact(fields: seq<Field>, mapped: set<Field>, n: nat)
    requires n <= |fields|
    ensures forall j :: 0 <= j < n && fields[j] !in mapped ==>
      HeaderWarning(MissingHeader, FirstIndexOf(fields, fields[j]), fields[j].name) in MissingHeaderWarnings(fields, mapped, n)
    ensures forall d :: d in MissingHeaderWarnings(fields, mapped, n) ==>
      exists j :: 0 <= j < n && fields[j] !in mapped
        && d == HeaderWarning(MissingHeader, FirstIndexOf(fields, fields[j]), fields[j].name)
  {
    if n > 0 {
      MissingHeaderWarningsExact(fields, mapped, n - 1);
    }
  }

  /** The first `n` fields are warned about at columns up to `n`. */
  lemma {:induction false} MissingHeaderColumnsBelow(fields: seq<Field>, mapped: set<Field>, n: nat)
    requires n <= |fields|
    ensures forall d :: d in MissingHeaderWarnings(fields, mapped, n) ==>
      d.column.Some? && d.column.value.Index? && d.column.value.n <= n
  {
    if n > 0 {
      MissingHeaderColumnsBelow(fields, mapped, n - 1);
    }
  }

  /** When no field object is declared twice, no `missing_header` warning
      is recorded twice. */
  lemma {:induction false} MissingHeaderNoRepeats(fields: seq<Field>, mapped: set<Field>, n: nat)
    requires n <= |fields| && DistinctFields(fields)
    ensures NoRepeats(MissingHeaderWarnings(fields, mapped, n))
  {
    if n > 0 {
      MissingHeaderNoRepeats(fields, mapped, n - 1);
      if fields[n - 1] !in mapped {
        var prev := MissingHeaderWarnings(fields, mapped, n - 1);
        var x := HeaderWarning(MissingHeader, FirstIndexOf(fields, fields[n - 1]), fields[n - 1].name);
        MissingHeaderColumnsBelow(fields, mapped, n - 1);
        assert FirstIndexOf(fields, fields[n - 1]) == n - 1;
        assert x.column == Some(Index(n));
        NoRepeatsAppend(prev, x);
      }
    }
  }

  /** When no field object is declared twice, each unmapped field is warned
      about exactly once, at the column after its own position. */
  lemma MissingHeaderWarningsOnce(fields: seq<Field>, mapped: set<Field>, n: nat)
    requires n <= |fields| && DistinctFields(fields)
    ensures forall j :: 0 <= j < n && fields[j] !in mapped ==>
      multiset(MissingHeaderWarnings(fields, mapped, n))[HeaderWarning(MissingHeader, j, fields[j].name)] == 1
  {
    MissingHeaderNoRepeats(fields, mapped, n);
    MissingHeaderWarningsExact(fields, mapped, n);
    forall j | 0 <= j < n && fields[j] !in mapped
      ensures multiset(MissingHeaderWarnings(fields, mapped, n))[HeaderWarning(MissingHeader, j, fields[j].name)] == 1
    {
      assert FirstIndexOf(fields, fields[j]) == j;
      NoRepeatsOnce(MissingHeaderWarnings(fields, mapped, n), HeaderWarning(MissingHeader, j, fields[j].name));
    }
  }

  /** Every declared field mapped, no `missing_header` warning. */
  lemma {:induction false} MissingHeaderWarningsNone(fields: seq<Field>, mapped: set<Field>, n: nat)
    requires n <= |fields|
    requires forall j :: 0 <= j < n ==> fields[j] in mapped
    ensures MissingHeaderWarnings(fields, mapped, n) == []
  {
    if n > 0 {
      MissingHeaderWarningsNone(fields, mapped, n - 1);
    }
  }

  /** Declared fields of which no two are spelled alike. */
  predicate UnrepeatedNames(fields: seq<Field>) {
    forall p, q :: 0 <= p < q < |fields| ==> fields[p].name != fields[q].name
  }

  /** The error naming `name` is not recorded by the first `n` positions
      when no field declared there carries that name. */
  lemma {:induction false} HeaderErrorAbsent(fields: seq<Field>, header: seq<string>, n: nat, name: string)
    requires n <= |header|
    requires forall j :: 0 <= j < n && j < |fields| ==> fields[j].name != name
    ensures MissingHeaderError(name) !in HeaderErrors(fields, header, n)
  {
    if n > 0 {
      HeaderErrorAbsent(fields, header, n - 1, name);
    }
  }

  /** When no two declared fields are spelled alike, no error is recorded
      twice. */
  lemma {:induction false} HeaderErrorsNoRepeats(fields: seq<Field>, header: seq<string>, n: nat)
    requires n <= |header| && UnrepeatedNames(fields)
    ensures NoRepeats(HeaderErrors(fields, header, n))
  {
    if n > 0 {
      HeaderErrorsNoRepeats(fields, header, n - 1);
      if MissingRequiredAt(fields, header, n - 1) {
        HeaderErrorAbsent(fields, header, n - 1, fields[n - 1].name);
        NoRepeatsAppend(HeaderErrors(fields, header, n - 1), MissingHeaderError(fields[n - 1].name));
      }
    }
  }

  /** A required field whose header name is wrong, and that no other header
      name matches, is reported twice: once as a `missing_header` error and
      once as a `missing_header` warning after the loop. When no two
      declared fields are spelled alike, the error is recorded exactly once. */
  lemma MissingRequiredHeaderReported(fields: seq<Field>, header: seq<string>, m: map<nat, Field>, order: seq<nat>, i: nat)
    requires HeaderSafe(fields, header) && i < |header|
    requires MissingRequiredAt(fields, header, i)
    requires fields[i] !in HeaderMap(fields, header, m, order, |header|).0.Values
    ensures MissingHeaderError(fields[i].name) in HeaderErrors(fields, header, |header|)
    ensures UnrepeatedNames(fields) ==>
      multiset(HeaderErrors(fields, header, |header|))[MissingHeaderError(fields[i].name)] == 1
    ensures HeaderWarning(MissingHeader, FirstIndexOf(fields, fields[i]), fields[i].name)
      in MissingHeaderWarnings(fields, HeaderMap(fields, header, m, order, |header|).0.Values, |fields|)
  {
    HeaderErrorsExact(fields, header, |header|);
    if UnrepeatedNames(fields) {
      HeaderErrorsNoRepeats(fields, header, |header|);
      NoRepeatsOnce(HeaderErrors(fields, header, |header|), MissingHeaderError(fields[i].name));
    }
    MissingHeaderWarningsExact(fields, HeaderMap(fields, header, m, order, |header|).0.Values, |fields|);
  }

  /** Declared fields that hold no field object twice. Ruby's `fields -
      values` keeps every copy of a repeated object, so only then is each
      unmapped field warned about once. */
  predicate DistinctFields(fields: seq<Field>) {
    forall p, q :: 0 <= p < q < |fields| ==> fields[p] != fields[q]
  }

  /** Declared field names that no two fields share, ignoring case. */
  predicate DistinctNames(fields: seq<Field>) {
    forall p, q :: 0 <= p < q < |fields| ==> !SameName(fields[p].name, fields[q].name)
  }

  /** Under distinct names, a header whose every name equals the declared
      name at its position, ignoring case, matches each name to its own
      position. */
  lemma CaseInsensitiveMatches(fields: seq<Field>, header: seq<string>, i: nat)
    requires DistinctNames(fields)
    requires |header| == |fields| && forall i :: 0 <= i < |fields| ==> SameName(header[i], fields[i].name)
    requires i < |header|
    ensures MatchIndex(fields, header[i]) == Some(i)
  {
    MatchIndexFirst(fields, header[i]);
    var r := MatchIndex(fields, header[i]);
    assert SameName(fields[i].name, header[i]);
    assert r.Some? && r.value <= i;
    assert r.value == i;
  }

  /** Header names that differ from the declared names only in case: every
      position is mapped to its own field and no declared field is left
      unmapped. */
  lemma CaseInsensitiveMapping(fields: seq<Field>, header: seq<string>, m: map<nat, Field>, order: seq<nat>)
    requires DistinctNames(fields)
    requires |header| == |fields| && forall i :: 0 <= i < |fields| ==> SameName(header[i], fields[i].name)
    ensures HeaderSafe(fields, header)
    ensures forall i :: 0 <= i < |header| ==>
      i in HeaderMap(fields, header, m, order, |header|).0 && HeaderMap(fields, header, m, order, |header|).0[i] == fields[i]
    ensures MissingHeaderWarnings(fields, HeaderMap(fields, header, m, order, |header|).0.Values, |fields|) == []
  {
    forall i | 0 <= i < |header|
      ensures MatchIndex(fields, header[i]) == Some(i)
    {
      CaseInsensitiveMatches(fields, header, i);
    }
    var r := HeaderMap(fields, header, m, order, |header|);
    HeaderMapKeys(fields, header, m, order, |header|);
    HeaderMapValues(fields, header, m, order, |header|);
    forall j | 0 <= j < |fields|
      ensures fields[j] in r.0.Values
    {
      assert r.0[j] == fields[j];
    }
    MissingHeaderWarningsNone(fields, r.0.Values, |fields|);
  }

  /** The same header records no error, and its only warnings are
      `different_index_header`, one for each name whose case differs. */
  lemma CaseInsensitiveDiagnostics(fields: seq<Field>, header: seq<string>, m: map<nat, Field>, order: seq<nat>)
    requires DistinctNames(fields)
    requires |header| == |fields| && forall i :: 0 <= i < |fields| ==> SameName(header[i], fields[i].name)
    ensures HeaderSafe(fields, header)
    ensures HeaderErrors(fields, header, |header|) == []
    ensures forall d :: d in HeaderWarnings(fields, header, |header|) ==> d.kind == DifferentIndexHeader
    ensures forall i :: 0 <= i < |header| ==>
      (HeaderWarning(DifferentIndexHeader, i, header[i]) in HeaderWarnings(fields, header, |header|) <==> fields[i].name != header[i])
  {
    forall i | 0 <= i < |header|
      ensures MatchIndex(fields, header[i]) == Some(i)
    {
      CaseInsensitiveMatches(fields, header, i);
    }
    HeaderErrorsNone(fields, header, |header|);
    forall d | d in HeaderWarnings(fields, header, |header|)
      ensures d.kind == DifferentIndexHeader
    {
      HeaderWarningOrigin(fields, header, |header|, d);
    }
    forall i | 0 <= i < |header|
      ensures HeaderWarning(DifferentIndexHeader, i, header[i]) in HeaderWarnings(fields, header, |header|)
              <==> fields[i].name != header[i]
    {
      MatchedHeader(fields, header, m, order, i);
    }
  }

  /** A header that lists the declared names in their declared order maps
      every position to its own field and raises nothing. */
  lemma ExactHeader(fields: seq<Field>, header: seq<string>, m: map<nat, Field>, order: seq<nat>)
    requires DistinctNames(fields)
    requires |header| == |fields| && forall i :: 0 <= i < |fields| ==> header[i] == fields[i].name
    ensures HeaderSafe(fields, header)
    ensures forall i :: 0 <= i < |header| ==>
      i in HeaderMap(fields, header, m, order, |header|).0 && HeaderMap(fields, header, m, order, |header|).0[i] == fields[i]
    ensures HeaderErrors(fields, header, |header|) == []
    ensures HeaderWarnings(fields, header, |header|) == []
    ensures MissingHeaderWarnings(fields, HeaderMap(fields, header, m, order, |header|).0.Values, |fields|) == []
  {
    forall i | 0 <= i < |fields|
      ensures SameName(header[i], fields[i].name)
    {
    }
    CaseInsensitiveMapping(fields, header, m, order);
    CaseInsensitiveDiagnostics(fields, header, m, order);
    forall i | 0 <= i < |header|
      ensures StepWarnings(fields, header, i) == []
    {
      CaseInsensitiveMatches(fields, header, i);
    }
    HeaderWarningsNone(fields, header, |header|);
  }
}
