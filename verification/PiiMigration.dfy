/**
 The PII envelope migration (scripts/migrate_pii_envelope.py): nested loops over tables, rows and fields inside
 one transaction. Row-level refusals by the database (a unique licence index, say) are an input.
 */
module PiiMigration {
  import opened Common
  import opened Pii
  import opened Text

  /** A reflected column type. */
  datatype Capacity = NotText | Unlimited | Limited(length: nat)

  datatype Row = Row(id: int, values: map<string, Option<string>>)

  datatype Table = Table(columns: map<string, Capacity>, rows: seq<Row>)
  {
    ghost predicate Valid() { forall i :: 0 <= i < |rows| ==> rows[i].values.Keys == columns.Keys }
  }

  type Store = map<string, Table>

  /**
   One run's fixed inputs, as the loops see them: how a current envelope is read, what a stored value means under the
   declared source, how it is converted, how long a text's envelope is, whether the source's key is at hand, the
   blind-index hash, the nonces, and the row updates the database refuses.
   */
  datatype Run = Run(
    decrypt: string -> Option<string>,
    meaning: string -> Option<string>,
    convert: (string, Nonce) -> Option<Conversion>,
    envelopeLength: string -> nat,
    keyed: bool,
    hash: string -> Option<string>,
    nonce: (string, int, string) -> Nonce,
    refuses: (string, int) -> bool)
  {
    /** What conversion of single values promises. */
    ghost predicate Lawful() {
      && (forall v: string :: decrypt(v).Some? ==> IsCurrent(v))
      && (forall v: string :: IsCurrent(v) ==> meaning(v) == decrypt(v))
      && (forall v: string, n: Nonce :: ConvertsWell(v, convert(v, n)))
    }

    ghost predicate ConvertsWell(v: string, r: Option<Conversion>) {
      && (r.Some? <==> meaning(v).Some?)
      && (r.Some? ==>
            && decrypt(r.value.value) == meaning(v)
            && (r.value.changed <==> !IsCurrent(v))
            && (!r.value.changed ==> r.value.value == v)
            && (r.value.changed ==> |r.value.value| == envelopeLength(meaning(v).value)))
    }
  }

  /** The run the script makes for a cipher, a declared source and the old Fernet key, if there is one. */
  function RunOf(c: Cipher, source: Source, fernet: Option<string -> Option<string>>, hash: string -> Option<string>,
                 nonce: (string, int, string) -> Nonce, refuses: (string, int) -> bool): (run: Run)
  {
    Run(v => Decrypt(c, v), v => Meaning(c, v, source, fernet),
        (v: string, n: Nonce) => Convert(c, v, source, fernet, n),
        p => EnvelopeLength(c, p), source.LegacyFernet? ==> fernet.Some?, hash, nonce, refuses)
  }

  /** It converts as the loops rely on. */
  lemma RunOfLawful(c: Cipher, source: Source, fernet: Option<string -> Option<string>>, hash: string -> Option<string>,
                    nonce: (string, int, string) -> Nonce, refuses: (string, int) -> bool)
    requires c.Lawful()
    ensures RunOf(c, source, fernet, hash, nonce, refuses).Lawful()
  {
    var run := RunOf(c, source, fernet, hash, nonce, refuses);
    forall v: string, n: Nonce ensures run.ConvertsWell(v, run.convert(v, n)) {
      ConvertKeepsMeaning(c, v, source, fernet, n);
    }
  }

  /** A table's licence field and the blind index that follows it. */
  datatype Index = Index(licence: string, hash: string)

  /** The encrypted fields of one table, with the least length each column must have. */
  datatype Plan = Plan(table: string, index: Index, fields: seq<string>, minimum: seq<nat>)
  {
    ghost predicate Valid() {
      && |minimum| == |fields|
      && (forall i :: 0 <= i < |fields| ==> fields[i] != index.hash)
      && Distinct(fields)
    }
  }

  const USER_PLAN :=
    Plan("user", Index("driver_lic_no", "driver_lic_hash"), ["driver_lic_no"], [LICENCE_CAPACITY])

  const ROLL_PLAN :=
    Plan("electoral_roll", Index("driver_license_number", "driver_license_hash"),
         ["driver_license_number", "full_name", "address_line1", "address_line2", "suburb", "state", "postcode"],
         [LICENCE_CAPACITY, LONG_CAPACITY, LONG_CAPACITY, LONG_CAPACITY, LONG_CAPACITY, SHORT_CAPACITY, SHORT_CAPACITY])

  const FIELDS: seq<Plan> := [USER_PLAN, ROLL_PLAN]

  ghost predicate Planned(plans: seq<Plan>)
  {
    && (forall i :: 0 <= i < |plans| ==> plans[i].Valid())
    && (forall i, j :: 0 <= i < j < |plans| ==> plans[i].table != plans[j].table)
  }

  predicate WideEnough(c: Capacity, required: nat)
  {
    c.Unlimited? || (c.Limited? && c.length >= required)
  }

  predicate Fits(c: Capacity, length: nat)
  {
    c.Limited? ==> length <= c.length
  }

  // ---------------------------------------------------------------- the promise

  predicate Stale(row: Row, field: string)
  {
    field in row.values && row.values[field].Some? && !IsCurrent(row.values[field].value)
  }

  /** How many of the first fields a row has to convert. */
  function StaleCount(row: Row, fields: seq<string>): (n: nat)
  {
    if fields == [] then 0
    else StaleCount(row, fields[..|fields| - 1]) + if Stale(row, fields[|fields| - 1]) then 1 else 0
  }

  /** A stored value can be read under the declared source and its envelope fits the column. */
  predicate ValueOk(run: Run, c: Capacity, value: Option<string>)
  {
    value.Some? ==>
      var meaning := run.meaning(value.value);
      && meaning.Some?
      && Fits(c, if IsCurrent(value.value) then |value.value| else run.envelopeLength(meaning.value))
  }

  predicate RowOk(run: Run, columns: map<string, Capacity>, fields: seq<string>, row: Row)
  {
    forall i :: 0 <= i < |fields| ==> FieldOkAt(run, columns, row, fields, i)
  }

  /** The first `k` fields of a row are in order. */
  ghost predicate OkUpTo(run: Run, columns: map<string, Capacity>, row: Row, fields: seq<string>, k: nat)
    requires k <= |fields|
  {
    forall i :: 0 <= i < k ==> FieldOkAt(run, columns, row, fields, i)
  }

  lemma OkSnoc(run: Run, columns: map<string, Capacity>, row: Row, fields: seq<string>, k: nat)
    requires k < |fields| && OkUpTo(run, columns, row, fields, k) && FieldOkAt(run, columns, row, fields, k)
    ensures OkUpTo(run, columns, row, fields, k + 1)
  {
    forall i | 0 <= i < k + 1 ensures FieldOkAt(run, columns, row, fields, i) {
      assert i < k || i == k;
    }
  }

  predicate FieldOkAt(run: Run, columns: map<string, Capacity>, row: Row, fields: seq<string>, i: nat)
    requires i < |fields|
  {
    FieldOk(run, columns, row, fields[i])
  }

  predicate FieldOk(run: Run, columns: map<string, Capacity>, row: Row, field: string)
  {
    field in columns && field in row.values ==> ValueOk(run, columns[field], row.values[field])
  }

  /**
   One column of a row after migration of the fields in `done`: a stale field is an envelope with the same
   plaintext, the blind index of a converted licence is recomputed, anything else is as it was.
   */
  ghost predicate CellMigrated(run: Run, ix: Index, done: set<string>, row: Row, column: string, value: Option<string>)
    requires column in row.values
  {
    if column in done && Stale(row, column) then
      value.Some? && Enveloped(run, row.values[column].value, value.value)
    else if column == ix.hash && ix.licence in done && Stale(row, ix.licence) then
      Rehashed(run, row.values[ix.licence].value, value)
    else value == row.values[column]
  }

  /** A current envelope with the same plaintext, as long as that plaintext needs. */
  ghost predicate Enveloped(run: Run, was: string, became: string)
  {
    && run.meaning(was).Some?
    && run.decrypt(became) == run.meaning(was)
    && |became| == run.envelopeLength(run.meaning(was).value)
  }

  ghost predicate Rehashed(run: Run, licence: string, value: Option<string>)
  {
    run.meaning(licence).Some? && value == run.hash(run.meaning(licence).value)
  }

  ghost predicate RowMigrated(run: Run, ix: Index, done: set<string>, row: Row, row': Row)
  {
    && row'.id == row.id && row'.values.Keys == row.values.Keys
    && forall k :: k in row.values ==> CellMigrated(run, ix, done, row, k, row'.values[k])
  }

  // ---------------------------------------------------------------- one row

  datatype Updates = Updates(values: map<string, Option<string>>, converted: nat)

  /** Fields that exist, none of them the blind index. */
  ghost predicate FieldList(ix: Index, fields: seq<string>, columns: map<string, Capacity>)
  {
    forall i :: 0 <= i < |fields| ==> fields[i] in columns && fields[i] != ix.hash
  }

  ghost function Elements(fields: seq<string>): (s: set<string>)
  {
    if fields == [] then {} else Elements(fields[..|fields| - 1]) + {fields[|fields| - 1]}
  }

  lemma {:induction false} ElementsAre(fields: seq<string>, f: string)
    ensures f in Elements(fields) <==> f in fields
  {
    if fields != [] {
      ElementsAre(fields[..|fields| - 1], f);
      assert fields == fields[..|fields| - 1] + [fields[|fields| - 1]];
    }
  }

  /** What a converted field adds to its row's updates. */
  function WithField(run: Run, ix: Index, columns: map<string, Capacity>, updates: map<string, Option<string>>,
                     field: string, migrated: string): (u: map<string, Option<string>>)
  {
    var u := updates[field := Some(migrated)];
    var plaintext := run.decrypt(migrated);
    if field == ix.licence && ix.hash in columns && plaintext.Some? then u[ix.hash := run.hash(plaintext.value)] else u
  }

  lemma FieldStep(run: Run, ix: Index, columns: map<string, Capacity>, done: set<string>, field: string, row: Row,
                  updates: map<string, Option<string>>, migrated: string)
    requires row.values.Keys == columns.Keys && field in columns && field != ix.hash && ix.hash !in done
    requires Stale(row, field)
    requires RowMigrated(run, ix, done, row, Row(row.id, row.values + updates))
    requires Enveloped(run, row.values[field].value, migrated)
    ensures var u := WithField(run, ix, columns, updates, field, migrated);
            RowMigrated(run, ix, done + {field}, row, Row(row.id, row.values + u))
  {
    var u := WithField(run, ix, columns, updates, field, migrated);
    var before, after := row.values + updates, row.values + u;
    assert after.Keys == row.values.Keys;
    forall k | k in row.values ensures CellMigrated(run, ix, done + {field}, row, k, after[k]) {
      assert CellMigrated(run, ix, done, row, k, before[k]);
      CellStep(run, ix, done, field, row, k, before[k], after[k], migrated);
    }
  }

  /** One column, when one more field is done. */
  lemma CellStep(run: Run, ix: Index, done: set<string>, field: string, row: Row, k: string,
                 before: Option<string>, after: Option<string>, migrated: string)
    requires k in row.values && field in row.values && field != ix.hash && ix.hash !in done && Stale(row, field)
    requires CellMigrated(run, ix, done, row, k, before) && Enveloped(run, row.values[field].value, migrated)
    requires after == if k == field then Some(migrated)
                      else if k == ix.hash && field == ix.licence
                      then run.hash(run.meaning(row.values[field].value).value)
                      else before
    ensures CellMigrated(run, ix, done + {field}, row, k, after)
  {
  }

  lemma FieldSkipped(run: Run, ix: Index, done: set<string>, field: string, row: Row, row': Row)
    requires RowMigrated(run, ix, done, row, row') && !Stale(row, field)
    ensures RowMigrated(run, ix, done + {field}, row, row')
  {
    forall k | k in row.values ensures CellMigrated(run, ix, done + {field}, row, k, row'.values[k]) {
      assert CellMigrated(run, ix, done, row, k, row'.values[k]);
    }
  }

  /** Convert one non-null field, or fail. */
  method ConvertField(run: Run, table: string, id: int, field: string, c: Capacity, value: string)
    returns (r: Option<Conversion>)
    requires run.Lawful()
    ensures r.Some? <==> ValueOk(run, c, Some(value))
    ensures r.Some? ==>
              && (r.value.changed <==> !IsCurrent(value))
              && (r.value.changed ==> Enveloped(run, value, r.value.value))
  {
    var nonce := run.nonce(table, id, field);
    r := run.convert(value, nonce);
    assert run.ConvertsWell(value, r);
    if r.Some? && !Fits(c, |r.value.value|) {
      return None;
    }
  }

  /** The updates gathered for a row account for its first `k` fields. */
  ghost predicate Progress(run: Run, ix: Index, fields: seq<string>, k: nat, row: Row, u: Updates)
  {
    && k <= |fields|
    && u.converted == StaleCount(row, fields[..k])
    && (u.values == map[] <==> u.converted == 0)
    && RowMigrated(run, ix, Elements(fields[..k]), row, Row(row.id, row.values + u.values))
  }

  lemma Converted(run: Run, ix: Index, columns: map<string, Capacity>, fields: seq<string>, k: nat, row: Row,
                  u: Updates, migrated: string)
    requires k < |fields| && Progress(run, ix, fields, k, row, u)
    requires row.values.Keys == columns.Keys && FieldList(ix, fields, columns) && Stale(row, fields[k])
    requires Enveloped(run, row.values[fields[k]].value, migrated)
    ensures var u' := Updates(WithField(run, ix, columns, u.values, fields[k], migrated), u.converted + 1);
            Progress(run, ix, fields, k + 1, row, u')
  {
    ElementsSnoc(fields, k);
    ElementsAre(fields[..k], ix.hash);
    FieldStep(run, ix, columns, Elements(fields[..k]), fields[k], row, u.values, migrated);
    assert fields[k] in WithField(run, ix, columns, u.values, fields[k], migrated);
  }

  lemma NotConverted(run: Run, ix: Index, fields: seq<string>, k: nat, row: Row, u: Updates)
    requires k < |fields| && Progress(run, ix, fields, k, row, u) && !Stale(row, fields[k])
    ensures Progress(run, ix, fields, k + 1, row, u)
  {
    ElementsSnoc(fields, k);
    FieldSkipped(run, ix, Elements(fields[..k]), fields[k], row, Row(row.id, row.values + u.values));
  }

  lemma NothingYet(run: Run, ix: Index, fields: seq<string>, row: Row)
    ensures Progress(run, ix, fields, 0, row, Updates(map[], 0))
  {
    assert row.values + map[] == row.values;
    assert fields[..0] == [];
  }

  /** One field of a row. */
  method MigrateField(run: Run, table: string, ix: Index, columns: map<string, Capacity>, fields: seq<string>, k: nat,
                      row: Row, u: Updates)
    returns (r: Option<Updates>)
    requires run.Lawful() && row.values.Keys == columns.Keys && FieldList(ix, fields, columns)
    requires k < |fields| && Progress(run, ix, fields, k, row, u)
    ensures r.Some? <==> FieldOkAt(run, columns, row, fields, k)
    ensures r.Some? ==> Progress(run, ix, fields, k + 1, row, r.value)
  {
    var field := fields[k];
    if row.values[field].None? {
      NotConverted(run, ix, fields, k, row, u);
      return Some(u);
    }
    var result := ConvertField(run, table, row.id, field, columns[field], row.values[field].value);
    if result.None? {
      return None;
    }
    if !result.value.changed {
      NotConverted(run, ix, fields, k, row, u);
      return Some(u);
    }
    Converted(run, ix, columns, fields, k, row, u, result.value.value);
    return Some(Updates(WithField(run, ix, columns, u.values, field, result.value.value), u.converted + 1));
  }

  /** The loop over a row's fields. */
  method MigrateRow(run: Run, table: string, ix: Index, columns: map<string, Capacity>, fields: seq<string>, row: Row)
    returns (r: Option<Updates>)
    requires run.Lawful() && row.values.Keys == columns.Keys && FieldList(ix, fields, columns)
    ensures r.Some? <==> RowOk(run, columns, fields, row)
    ensures r.Some? ==> Progress(run, ix, fields, |fields|, row, r.value)
  {
    var u := Updates(map[], 0);
    NothingYet(run, ix, fields, row);
    var k := 0;
    while k < |fields|
      invariant 0 <= k <= |fields|
      invariant OkUpTo(run, columns, row, fields, k)
      invariant Progress(run, ix, fields, k, row, u)
    {
      var next := MigrateField(run, table, ix, columns, fields, k, row, u);
      if next.None? {
        return None;
      }
      OkSnoc(run, columns, row, fields, k);
      u := next.value;
      k := k + 1;
    }
    return Some(u);
  }

  lemma ElementsSnoc(fields: seq<string>, k: nat)
    requires k < |fields|
    ensures Elements(fields[..k + 1]) == Elements(fields[..k]) + {fields[k]} && fields[..k + 1][..k] == fields[..k]
  {
    assert fields[..k + 1][..k] == fields[..k] && fields[..k + 1][k] == fields[k];
  }

  // ---------------------------------------------------------------- one table

  /** `[field for field in expected_fields if field in columns]`. */
  function Present(expected: seq<string>, columns: map<string, Capacity>): (fields: seq<string>)
  {
    if expected == [] then []
    else
      var last := expected[|expected| - 1];
      Present(expected[..|expected| - 1], columns) + if last in columns then [last] else []
  }

  /** Exactly the expected fields that exist. */
  lemma {:induction false} PresentAre(expected: seq<string>, columns: map<string, Capacity>, f: string)
    ensures f in Present(expected, columns) <==> f in expected && f in columns
  {
    if expected != [] {
      var front, last := expected[..|expected| - 1], expected[|expected| - 1];
      PresentAre(front, columns, f);
      assert expected == front + [last];
    }
  }

  ghost predicate Distinct(fields: seq<string>)
  {
    forall i, j :: 0 <= i < j < |fields| ==> fields[i] != fields[j]
  }

  /** The row can be migrated, and the database accepts the update if there is one to make. */
  predicate RowFits(run: Run, name: string, columns: map<string, Capacity>, fields: seq<string>, row: Row, apply: bool)
  {
    RowOk(run, columns, fields, row) && (apply && StaleCount(row, fields) > 0 ==> !run.refuses(name, row.id))
  }

  predicate TableOk(run: Run, name: string, columns: map<string, Capacity>, rows: seq<Row>, fields: seq<string>,
                    apply: bool)
  {
    forall i :: 0 <= i < |rows| ==> RowFits(run, name, columns, fields, rows[i], apply)
  }

  function StaleTotal(rows: seq<Row>, fields: seq<string>): (n: nat)
  {
    if rows == [] then 0 else StaleTotal(rows[..|rows| - 1], fields) + StaleCount(rows[|rows| - 1], fields)
  }

  /** What a run leaves of a row: migrated, or untouched when it only validates. */
  ghost predicate RowLeft(run: Run, ix: Index, fields: seq<string>, apply: bool, row: Row, row': Row)
  {
    if apply then RowMigrated(run, ix, Elements(fields), row, row') else row' == row
  }

  ghost predicate RowsLeft(run: Run, ix: Index, fields: seq<string>, apply: bool, rows: seq<Row>, rows': seq<Row>)
  {
    |rows'| == |rows| && forall i :: 0 <= i < |rows| ==> RowLeft(run, ix, fields, apply, rows[i], rows'[i])
  }

  /** One row: convert its fields, then update it unless there is nothing to do or nothing is to be applied. */
  method UpdateRow(run: Run, name: string, ix: Index, columns: map<string, Capacity>, fields: seq<string>, row: Row,
                   apply: bool)
    returns (r: Option<Row>, converted: nat)
    requires run.Lawful() && FieldList(ix, fields, columns) && row.values.Keys == columns.Keys
    ensures r.Some? <==> RowFits(run, name, columns, fields, row, apply)
    ensures r.Some? ==> converted == StaleCount(row, fields) && RowLeft(run, ix, fields, apply, row, r.value)
  {
    var u := MigrateRow(run, name, ix, columns, fields, row);
    if u.None? {
      return None, 0;
    }
    assert fields[..|fields|] == fields;
    if u.value.values == map[] || !apply {
      assert u.value.values == map[] ==> row.values + u.value.values == row.values;
      return Some(row), u.value.converted;
    }
    if run.refuses(name, row.id) {
      return None, 0;
    }
    return Some(Row(row.id, row.values + u.value.values)), u.value.converted;
  }

  /** The loop over a table's rows, on the transaction's copy of them. */
  method MigrateRows(run: Run, name: string, ix: Index, columns: map<string, Capacity>, rows: seq<Row>,
                     fields: seq<string>, apply: bool)
    returns (r: Option<seq<Row>>, converted: nat)
    requires run.Lawful() && FieldList(ix, fields, columns)
    requires forall i :: 0 <= i < |rows| ==> rows[i].values.Keys == columns.Keys
    ensures r.Some? <==> TableOk(run, name, columns, rows, fields, apply)
    ensures r.Some? ==> converted == StaleTotal(rows, fields) && RowsLeft(run, ix, fields, apply, rows, r.value)
  {
    var work := rows;
    converted := 0;
    var k := 0;
    while k < |rows|
      invariant 0 <= k <= |rows| == |work|
      invariant forall i :: 0 <= i < k ==> RowFits(run, name, columns, fields, rows[i], apply)
      invariant converted == StaleTotal(rows[..k], fields)
      invariant forall i :: 0 <= i < k ==> RowLeft(run, ix, fields, apply, rows[i], work[i])
    {
      var row, n := UpdateRow(run, name, ix, columns, fields, rows[k], apply);
      if row.None? {
        return None, 0;
      }
      work := work[k := row.value];
      assert rows[..k + 1][..k] == rows[..k];
      converted := converted + n;
      k := k + 1;
    }
    assert rows[..|rows|] == rows;
    return Some(work), converted;
  }

  // ---------------------------------------------------------------- the whole store

  /** Every encrypted column that exists is text and wide enough for the envelopes it will hold. */
  ghost predicate PlanFits(p: Plan, store: Store)
    requires p.Valid()
  {
    p.table in store ==>
      forall j :: 0 <= j < |p.fields| && p.fields[j] in store[p.table].columns ==>
        WideEnough(store[p.table].columns[p.fields[j]], p.minimum[j])
  }

  function FieldsOf(p: Plan, t: Table): (fields: seq<string>)
  {
    Present(p.fields, t.columns)
  }

  predicate PlanOk(run: Run, p: Plan, store: Store, apply: bool)
  {
    p.table in store ==>
      TableOk(run, p.table, store[p.table].columns, store[p.table].rows, FieldsOf(p, store[p.table]), apply)
  }

  /** When a run goes through: before it starts, all of this can be checked. */
  ghost predicate Migratable(run: Run, plans: seq<Plan>, store: Store, apply: bool)
    requires Planned(plans)
  {
    && (forall i :: 0 <= i < |plans| ==> PlanFits(plans[i], store))
    && run.keyed
    && (forall i :: 0 <= i < |plans| ==> PlanOk(run, plans[i], store, apply))
  }

  ghost predicate TableLeft(run: Run, p: Plan, apply: bool, t: Table, t': Table)
  {
    t'.columns == t.columns && RowsLeft(run, p.index, FieldsOf(p, t), apply, t.rows, t'.rows)
  }

  /** What a run makes of a planned table. */
  ghost function Outcome(run: Run, apply: bool, store: Store): (good: (Plan, Table) -> bool)
  {
    (p: Plan, t: Table) => p.table in store && TableLeft(run, p, apply, store[p.table], t)
  }

  /** Planned tables are migrated; every other table is as it was. */
  ghost predicate StoreLeft(run: Run, plans: seq<Plan>, apply: bool, store: Store, store': Store)
  {
    LeftUpTo(Outcome(run, apply, store), plans, |plans|, store, store')
  }

  /** The first `k` plans are carried out, each leaving a good table, and nothing else has changed. */
  ghost predicate LeftUpTo(good: (Plan, Table) -> bool, plans: seq<Plan>, k: nat, store: Store, store': Store)
    requires k <= |plans|
  {
    && store'.Keys == store.Keys
    && (forall i :: 0 <= i < k && plans[i].table in store ==> good(plans[i], store'[plans[i].table]))
    && (forall name :: name in store && Unplanned(plans, k, name) ==> store'[name] == store[name])
  }

  ghost predicate Unplanned(plans: seq<Plan>, k: nat, name: string)
    requires k <= |plans|
  {
    forall i :: 0 <= i < k ==> plans[i].table != name
  }

  function Conversions(plans: seq<Plan>, store: Store): (n: nat)
  {
    if plans == [] then 0
    else
      var p := plans[|plans| - 1];
      Conversions(plans[..|plans| - 1], store) + PlanTotal(p, store)
  }

  function PlanTotal(p: Plan, store: Store): (n: nat)
  {
    if p.table in store then StaleTotal(store[p.table].rows, FieldsOf(p, store[p.table])) else 0
  }

  ghost predicate StoreValid(store: Store)
  {
    forall name :: name in store ==> store[name].Valid()
  }

  datatype Failure = ColumnsTooSmall | NoFernetKey | ValueRejected

  /** The reflected columns that cannot hold envelopes. */
  method ValidateCapacity(plans: seq<Plan>, store: Store) returns (failures: seq<(string, string)>)
    requires Planned(plans)
    ensures failures == [] <==> forall i :: 0 <= i < |plans| ==> PlanFits(plans[i], store)
  {
    failures := [];
    var k := 0;
    while k < |plans|
      invariant 0 <= k <= |plans|
      invariant failures == [] <==> forall i :: 0 <= i < k ==> PlanFits(plans[i], store)
    {
      var p := plans[k];
      if p.table in store {
        ghost var before := failures;
        var columns := store[p.table].columns;
        var j := 0;
        while j < |p.fields|
          invariant 0 <= j <= |p.fields|
          invariant failures == [] <==>
                      && before == []
                      && forall i :: 0 <= i < j && p.fields[i] in columns ==>
                           WideEnough(columns[p.fields[i]], p.minimum[i])
        {
          if p.fields[j] in columns && !WideEnough(columns[p.fields[j]], p.minimum[j]) {
            failures := failures + [(p.table, p.fields[j])];
          }
          j := j + 1;
        }
        assert failures == [] <==> before == [] && PlanFits(p, store);
      }
      k := k + 1;
    }
  }

  /** One table of the transaction; a table without encrypted columns is passed over. */
  method MigrateTable(run: Run, p: Plan, t: Table, apply: bool) returns (r: Option<Table>, converted: nat)
    requires run.Lawful() && p.Valid() && t.Valid()
    ensures r.Some? <==> TableOk(run, p.table, t.columns, t.rows, FieldsOf(p, t), apply)
    ensures r.Some? ==> converted == StaleTotal(t.rows, FieldsOf(p, t)) && TableLeft(run, p, apply, t, r.value)
  {
    var fields := FieldsOf(p, t);
    if fields == [] {
      NothingToDo(run, p, t, apply);
      return Some(t), 0;
    }
    PresentIsList(p, t);
    var rows, n := MigrateRows(run, p.table, p.index, t.columns, t.rows, fields, apply);
    if rows.None? {
      return None, 0;
    }
    return Some(Table(t.columns, rows.value)), n;
  }

  lemma PresentIsList(p: Plan, t: Table)
    requires p.Valid()
    ensures FieldList(p.index, FieldsOf(p, t), t.columns)
  {
    var fields := FieldsOf(p, t);
    forall i | 0 <= i < |fields| ensures fields[i] in t.columns && fields[i] != p.index.hash {
      PresentAre(p.fields, t.columns, fields[i]);
    }
  }

  lemma {:induction false} NothingStale(rows: seq<Row>)
    ensures StaleTotal(rows, []) == 0
  {
    if rows != [] {
      NothingStale(rows[..|rows| - 1]);
    }
  }

  lemma NothingToDo(run: Run, p: Plan, t: Table, apply: bool)
    requires FieldsOf(p, t) == []
    ensures TableOk(run, p.table, t.columns, t.rows, [], apply) && TableLeft(run, p, apply, t, t)
    ensures StaleTotal(t.rows, []) == 0
  {
    NothingStale(t.rows);
  }

  class PiiStore {
    var tables: Store

    /**
     The migration. It fails or only validates without any change; it goes through exactly when everything
     can be migrated; and it reports how many values were stale.
     */
    method Migrate(run: Run, plans: seq<Plan>, apply: bool) returns (r: Result<nat, Failure>)
      requires run.Lawful() && Planned(plans) && StoreValid(tables)
      modifies this
      ensures r.Ok? <==> Migratable(run, plans, old(tables), apply)
      ensures r.Err? || !apply ==> tables == old(tables)
      ensures r.Ok? ==> r.value == Conversions(plans, old(tables))
      ensures r.Ok? && apply ==> StoreLeft(run, plans, true, old(tables), tables)
    {
      var failures := ValidateCapacity(plans, tables);
      if failures != [] {
        return Err(ColumnsTooSmall);
      }
      if !run.keyed {
        return Err(NoFernetKey);
      }
      var work, converted := MigrateTables(run, plans, tables, apply);
      if work.None? {
        return Err(ValueRejected);
      }
      if apply {
        tables := work.value;
      }
      return Ok(converted);
    }

    /** `migrate`, with the script's fixed field lists and the envelope service as converter. */
    method Script(c: Cipher, source: Source, fernet: Option<string -> Option<string>>, hash: string -> Option<string>,
                  nonce: (string, int, string) -> Nonce, refuses: (string, int) -> bool, apply: bool)
      returns (r: Result<nat, Failure>)
      requires c.Lawful() && StoreValid(tables)
      modifies this
      ensures Planned(FIELDS)
      ensures r.Ok? <==> Migratable(RunOf(c, source, fernet, hash, nonce, refuses), FIELDS, old(tables), apply)
      ensures r.Err? || !apply ==> tables == old(tables)
      ensures r.Ok? ==> r.value == Conversions(FIELDS, old(tables))
      ensures r.Ok? && apply ==>
                StoreLeft(RunOf(c, source, fernet, hash, nonce, refuses), FIELDS, true, old(tables), tables)
    {
      FieldsPlanned();
      RunOfLawful(c, source, fernet, hash, nonce, refuses);
      r := Migrate(RunOf(c, source, fernet, hash, nonce, refuses), FIELDS, apply);
    }
  }

  /** One planned table of the transaction's copy. */
  method MigratePlan(run: Run, p: Plan, store: Store, work: Store, apply: bool)
    returns (r: Option<Store>, converted: nat)
    requires run.Lawful() && p.Valid() && StoreValid(store)
    ensures r.Some? <==> PlanOk(run, p, store, apply)
    ensures r.Some? ==> converted == PlanTotal(p, store)
    ensures r.Some? ==> PlanLeft(Outcome(run, apply, store), p, store, work, r.value)
  {
    if p.table !in store {
      return Some(work), 0;
    }
    var t, n := MigrateTable(run, p, store[p.table], apply);
    if t.None? {
      return None, 0;
    }
    return Some(work[p.table := t.value]), n;
  }

  /** The one table a plan may change. */
  ghost predicate PlanLeft(good: (Plan, Table) -> bool, p: Plan, store: Store, before: Store, after: Store)
  {
    if p.table in store
    then p.table in after && after == before[p.table := after[p.table]] && good(p, after[p.table])
    else after == before
  }

  ghost predicate PlansOkUpTo(run: Run, plans: seq<Plan>, k: nat, store: Store, apply: bool)
    requires k <= |plans|
  {
    forall i :: 0 <= i < k ==> PlanOk(run, plans[i], store, apply)
  }

  lemma PlansOkSnoc(run: Run, plans: seq<Plan>, k: nat, store: Store, apply: bool)
    requires k < |plans| && PlansOkUpTo(run, plans, k, store, apply) && PlanOk(run, plans[k], store, apply)
    ensures PlansOkUpTo(run, plans, k + 1, store, apply)
  {
    forall i | 0 <= i < k + 1 ensures PlanOk(run, plans[i], store, apply) {
      assert i < k || i == k;
    }
  }

  lemma ConversionsSnoc(plans: seq<Plan>, k: nat, store: Store)
    requires k < |plans|
    ensures Conversions(plans[..k + 1], store) == Conversions(plans[..k], store) + PlanTotal(plans[k], store)
  {
    assert plans[..k + 1][..k] == plans[..k] && plans[..k + 1][k] == plans[k];
  }

  /** The transaction: the loop over the planned tables, on a copy that is committed or dropped as a whole. */
  method MigrateTables(run: Run, plans: seq<Plan>, store: Store, apply: bool) returns (r: Option<Store>, converted: nat)
    requires run.Lawful() && Planned(plans) && StoreValid(store)
    ensures r.Some? <==> forall i :: 0 <= i < |plans| ==> PlanOk(run, plans[i], store, apply)
    ensures r.Some? ==> converted == Conversions(plans, store) && StoreLeft(run, plans, apply, store, r.value)
  {
    var work := store;
    converted := 0;
    var k := 0;
    while k < |plans|
      invariant 0 <= k <= |plans|
      invariant PlansOkUpTo(run, plans, k, store, apply)
      invariant converted == Conversions(plans[..k], store)
      invariant LeftUpTo(Outcome(run, apply, store), plans, k, store, work)
    {
      var next, n := MigratePlan(run, plans[k], store, work, apply);
      if next.None? {
        return None, 0;
      }
      PlansOkSnoc(run, plans, k, store, apply);
      ConversionsSnoc(plans, k, store);
      StoreStep(Outcome(run, apply, store), plans, k, store, work, next.value);
      work, converted, k := next.value, converted + n, k + 1;
    }
    assert plans[..|plans|] == plans;
    return Some(work), converted;
  }

  lemma StoreStep(good: (Plan, Table) -> bool, plans: seq<Plan>, k: nat, store: Store, before: Store, after: Store)
    requires k < |plans| && Unplanned(plans, k, plans[k].table) && LeftUpTo(good, plans, k, store, before)
    requires PlanLeft(good, plans[k], store, before, after)
    ensures LeftUpTo(good, plans, k + 1, store, after)
  {
    forall name | name in store && Unplanned(plans, k + 1, name) ensures after[name] == store[name] {
      assert Unplanned(plans, k, name) && plans[k].table != name;
    }
  }

  // ---------------------------------------------------------------- running it again

  /** The plan the script fixes is a plan. */
  lemma FieldsPlanned()
    ensures Planned(FIELDS)
  {
    UserPlanValid();
    RollPlanValid();
    assert USER_PLAN.table[0] != ROLL_PLAN.table[0];
  }

  lemma UserPlanValid()
    ensures USER_PLAN.Valid()
  {
    assert |"driver_lic_no"| != |"driver_lic_hash"|;
  }

  lemma RollPlanValid()
    ensures ROLL_PLAN.Valid()
  {
    var f := ROLL_PLAN.fields;
    assert |f[0]| == 21 && |f[1]| == 9 && |f[2]| == |f[3]| == 13 && |f[4]| == 6 && |f[5]| == 5 && |f[6]| == 8;
    assert f[2][12] != f[3][12];
    assert |ROLL_PLAN.index.hash| == 19;
  }

  /** Two runs with the same key read envelopes alike, whatever source each declares. */
  ghost predicate SameReader(run: Run, run': Run)
  {
    run.Lawful() && run'.Lawful() && forall v: string :: run'.decrypt(v) == run.decrypt(v)
  }

  lemma SameCipherSameReader(c: Cipher, source: Source, source': Source, fernet: Option<string -> Option<string>>,
                             fernet': Option<string -> Option<string>>, hash: string -> Option<string>,
                             nonce: (string, int, string) -> Nonce, nonce': (string, int, string) -> Nonce,
                             refuses: (string, int) -> bool, refuses': (string, int) -> bool)
    requires c.Lawful()
    ensures SameReader(RunOf(c, source, fernet, hash, nonce, refuses),
                       RunOf(c, source', fernet', hash, nonce', refuses'))
  {
    RunOfLawful(c, source, fernet, hash, nonce, refuses);
    RunOfLawful(c, source', fernet', hash, nonce', refuses');
  }

  /** After migration every selected value is a current envelope that authenticates and fits. */
  lemma MigratedRowIsCurrent(run: Run, run': Run, ix: Index, columns: map<string, Capacity>, fields: seq<string>,
                             row: Row, row': Row)
    requires SameReader(run, run') && FieldList(ix, fields, columns) && row.values.Keys == columns.Keys
    requires RowOk(run, columns, fields, row) && RowMigrated(run, ix, Elements(fields), row, row')
    ensures forall f :: f in fields ==> !Stale(row', f)
    ensures RowOk(run', columns, fields, row')
  {
    forall i | 0 <= i < |fields| ensures !Stale(row', fields[i]) && FieldOkAt(run', columns, row', fields, i) {
      var f := fields[i];
      ElementsAre(fields, f);
      assert CellMigrated(run, ix, Elements(fields), row, f, row'.values[f]);
      assert FieldOkAt(run, columns, row, fields, i);
    }
  }

  lemma {:induction false} NoStaleCount(row: Row, fields: seq<string>)
    requires forall f :: f in fields ==> !Stale(row, f)
    ensures StaleCount(row, fields) == 0
  {
    if fields != [] {
      NoStaleCount(row, fields[..|fields| - 1]);
    }
  }

  lemma {:induction false} NoStaleTotal(rows: seq<Row>, fields: seq<string>)
    requires forall i :: 0 <= i < |rows| ==> StaleCount(rows[i], fields) == 0
    ensures StaleTotal(rows, fields) == 0
  {
    if rows != [] {
      NoStaleTotal(rows[..|rows| - 1], fields);
    }
  }

  lemma SettledTable(run: Run, run': Run, p: Plan, t: Table, t': Table, apply: bool)
    requires SameReader(run, run') && p.Valid() && t.Valid()
    requires TableOk(run, p.table, t.columns, t.rows, FieldsOf(p, t), true) && TableLeft(run, p, true, t, t')
    ensures StaleTotal(t'.rows, FieldsOf(p, t')) == 0
    ensures TableOk(run', p.table, t'.columns, t'.rows, FieldsOf(p, t'), apply)
  {
    var fields := FieldsOf(p, t);
    PresentIsList(p, t);
    forall i | 0 <= i < |t'.rows|
      ensures StaleCount(t'.rows[i], fields) == 0 && RowFits(run', p.table, t'.columns, fields, t'.rows[i], apply)
    {
      assert RowFits(run, p.table, t.columns, fields, t.rows[i], true);
      assert RowLeft(run, p.index, fields, true, t.rows[i], t'.rows[i]);
      MigratedRowIsCurrent(run, run', p.index, t.columns, fields, t.rows[i], t'.rows[i]);
      NoStaleCount(t'.rows[i], fields);
    }
    NoStaleTotal(t'.rows, fields);
  }

  lemma {:induction false} NoConversions(plans: seq<Plan>, store: Store)
    requires forall i :: 0 <= i < |plans| ==> PlanTotal(plans[i], store) == 0
    ensures Conversions(plans, store) == 0
  {
    if plans != [] {
      NoConversions(plans[..|plans| - 1], store);
    }
  }

  /**
   A second run, whatever source is declared and whether or not it applies, goes through and converts nothing.
   */
  lemma SecondRunConvertsNothing(run: Run, run': Run, plans: seq<Plan>, store: Store, store': Store, apply: bool)
    requires SameReader(run, run') && Planned(plans) && StoreValid(store)
    requires run'.keyed
    requires Migratable(run, plans, store, true) && StoreLeft(run, plans, true, store, store')
    ensures Migratable(run', plans, store', apply) && Conversions(plans, store') == 0
  {
    forall i | 0 <= i < |plans|
      ensures PlanOk(run', plans[i], store', apply) && PlanTotal(plans[i], store') == 0 && PlanFits(plans[i], store')
    {
      var p := plans[i];
      assert PlanOk(run, p, store, true) && PlanFits(p, store);
      if p.table in store {
        SettledTable(run, run', p, store[p.table], store'[p.table], apply);
      }
    }
    NoConversions(plans, store');
  }

  // ---------------------------------------------------------------- what the script does to a column, by name

  /** Null stays null; anything else becomes an envelope that fits the column and means what the value meant. */
  ghost predicate Protected(run: Run, capacity: Capacity, was: Option<string>, became: Option<string>)
  {
    && (was.None? <==> became.None?)
    && (was.Some? && became.Some? ==>
          && StartsWith(became.value, "svpii:v1:")
          && run.meaning(was.value).Some? && run.decrypt(became.value) == run.meaning(was.value)
          && (capacity.Limited? ==> |became.value| <= capacity.length))
  }

  /** The blind index follows the licence where that was converted, and is otherwise as it was. */
  ghost predicate Follows(run: Run, licence: Option<string>, was: Option<string>, became: Option<string>)
  {
    if licence.Some? && !StartsWith(licence.value, "svpii:v1:")
    then run.meaning(licence.value).Some? && became == run.hash(run.meaning(licence.value).value)
    else became == was
  }

  /** One table before and after it was migrated as planned. */
  ghost predicate TableMoved(run: Run, p: Plan, t: Table, t': Table)
    requires p.Valid()
  {
    && run.Lawful() && t.Valid() && TableLeft(run, p, true, t, t')
    && TableOk(run, p.table, t.columns, t.rows, FieldsOf(p, t), true)
  }

  lemma PlannedColumn(run: Run, p: Plan, t: Table, t': Table, i: nat, column: string)
    requires p.Valid() && TableMoved(run, p, t, t') && i < |t.rows| && column in t.columns && column in p.fields
    ensures |t'.rows| == |t.rows| && column in t'.rows[i].values
    ensures Protected(run, t.columns[column], t.rows[i].values[column], t'.rows[i].values[column])
  {
    var fields := FieldsOf(p, t);
    PresentIsList(p, t);
    PresentAre(p.fields, t.columns, column);
    ElementsAre(fields, column);
    assert RowFits(run, p.table, t.columns, fields, t.rows[i], true);
    assert RowLeft(run, p.index, fields, true, t.rows[i], t'.rows[i]);
    MigratedRowIsCurrent(run, run, p.index, t.columns, fields, t.rows[i], t'.rows[i]);
    var j :| 0 <= j < |fields| && fields[j] == column;
    assert FieldOkAt(run, t.columns, t.rows[i], fields, j) && FieldOkAt(run, t.columns, t'.rows[i], fields, j);
    assert CellMigrated(run, p.index, Elements(fields), t.rows[i], column, t'.rows[i].values[column]);
  }

  lemma UnplannedColumn(run: Run, p: Plan, t: Table, t': Table, i: nat, column: string)
    requires p.Valid() && TableMoved(run, p, t, t') && i < |t.rows| && column in t.columns && column !in p.fields
    ensures |t'.rows| == |t.rows| && column in t'.rows[i].values
    ensures column != p.index.hash ==> t'.rows[i].values[column] == t.rows[i].values[column]
    ensures column == p.index.hash && p.index.licence in p.fields ==>
              Follows(run, if p.index.licence in t.columns then t.rows[i].values[p.index.licence] else None,
                      t.rows[i].values[column], t'.rows[i].values[column])
  {
    var fields := FieldsOf(p, t);
    PresentAre(p.fields, t.columns, column);
    ElementsAre(fields, column);
    PresentAre(p.fields, t.columns, p.index.licence);
    ElementsAre(fields, p.index.licence);
    assert RowLeft(run, p.index, fields, true, t.rows[i], t'.rows[i]);
    assert CellMigrated(run, p.index, Elements(fields), t.rows[i], column, t'.rows[i].values[column]);
  }

  /** The columns that hold a voter's licence, name and address. */
  predicate Personal(table: string, column: string)
  {
    || (table == "user" && column == "driver_lic_no")
    || (table == "electoral_roll" &&
        (column == "driver_license_number" || column == "full_name" || column == "address_line1" ||
         column == "address_line2" || column == "suburb" || column == "state" || column == "postcode"))
  }

  /** The least length of such a column. */
  function LeastLength(table: string, column: string): (n: nat)
    requires Personal(table, column)
  {
    if column == "driver_lic_no" || column == "driver_license_number" then 255
    else if column == "state" || column == "postcode" then 512
    else 1536
  }

  /** The plans of the script are for these columns. */
  lemma PlansArePersonal(table: string, column: string)
    ensures Personal(table, column) <==> (table == "user" && column in USER_PLAN.fields) ||
                                         (table == "electoral_roll" && column in ROLL_PLAN.fields)
  {
    var f := ROLL_PLAN.fields;
    assert f[0] == "driver_license_number" && f[1] == "full_name" && f[2] == "address_line1";
    assert f[3] == "address_line2" && f[4] == "suburb" && f[5] == "state" && f[6] == "postcode";
    assert USER_PLAN.fields[0] == "driver_lic_no";
  }

  /** And for these lengths. */
  lemma PlansHaveLength(p: Plan, j: nat)
    requires p in FIELDS && j < |p.fields|
    ensures j < |p.minimum| && Personal(p.table, p.fields[j]) && p.minimum[j] == LeastLength(p.table, p.fields[j])
  {
    PlansArePersonal(p.table, p.fields[j]);
  }

  /**
   What the script leaves in one column of one row, table and columns by name: the eight columns of personal data are
   wide enough and protected, the two blind indexes follow their licences, and nothing else changes.
   */
  lemma ScriptSays(c: Cipher, source: Source, fernet: Option<string -> Option<string>>, hash: string -> Option<string>,
                   nonce: (string, int, string) -> Nonce, refuses: (string, int) -> bool, store: Store, store': Store,
                   table: string, i: nat, column: string)
    requires c.Lawful() && StoreValid(store) && Planned(FIELDS)
    requires Migratable(RunOf(c, source, fernet, hash, nonce, refuses), FIELDS, store, true)
    requires StoreLeft(RunOf(c, source, fernet, hash, nonce, refuses), FIELDS, true, store, store')
    requires table in store && i < |store[table].rows| && column in store[table].columns
    ensures table in store' && |store'[table].rows| == |store[table].rows| && column in store'[table].rows[i].values
    ensures var run := RunOf(c, source, fernet, hash, nonce, refuses);
            var capacity, row := store[table].columns[column], store[table].rows[i].values;
            var was, became := row[column], store'[table].rows[i].values[column];
            if Personal(table, column) then
              WideEnough(capacity, LeastLength(table, column)) && Protected(run, capacity, was, became)
            else if table == "user" && column == "driver_lic_hash" then
              Follows(run, if "driver_lic_no" in row then row["driver_lic_no"] else None, was, became)
            else if table == "electoral_roll" && column == "driver_license_hash" then
              Follows(run, if "driver_license_number" in row then row["driver_license_number"] else None, was, became)
            else became == was
  {
    var run := RunOf(c, source, fernet, hash, nonce, refuses);
    RunOfLawful(c, source, fernet, hash, nonce, refuses);
    PlansArePersonal(table, column);
    if table == "user" {
      PlanSays(run, 0, store, store', i, column);
    } else if table == "electoral_roll" {
      PlanSays(run, 1, store, store', i, column);
    } else {
      assert Unplanned(FIELDS, 2, table);
    }
  }

  lemma PlanSays(run: Run, k: nat, store: Store, store': Store, i: nat, column: string)
    requires k < |FIELDS| && run.Lawful() && StoreValid(store) && Planned(FIELDS)
    requires Migratable(run, FIELDS, store, true)
    requires StoreLeft(run, FIELDS, true, store, store')
    requires var p := FIELDS[k]; p.table in store && i < |store[p.table].rows| && column in store[p.table].columns
    ensures var p := FIELDS[k];
            && p.table in store' && |store'[p.table].rows| == |store[p.table].rows|
            && column in store'[p.table].rows[i].values
    ensures var p := FIELDS[k];
            var capacity, row := store[p.table].columns[column], store[p.table].rows[i].values;
            var was, became := row[column], store'[p.table].rows[i].values[column];
            if column in p.fields then
              && Personal(p.table, column) && WideEnough(capacity, LeastLength(p.table, column))
              && Protected(run, capacity, was, became)
            else if column == p.index.hash then
              Follows(run, if p.index.licence in row then row[p.index.licence] else None, was, became)
            else became == was
  {
    var p := FIELDS[k];
    assert PlanOk(run, p, store, true) && PlanFits(p, store);
    if column in p.fields {
      PlannedColumn(run, p, store[p.table], store'[p.table], i, column);
      var j :| 0 <= j < |p.fields| && p.fields[j] == column;
      PlansHaveLength(p, j);
    } else {
      UnplannedColumn(run, p, store[p.table], store'[p.table], i, column);
      assert p.index.licence == p.fields[0];
    }
  }
}
