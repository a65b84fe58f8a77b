/** Mutations: row transitions written into every keyspace of a table
    (packages/engine/src/engine.ts). */
module EngineModule {
  import Lex
  import opened Values
  import opened Wrappers
  import opened Keys
  import opened Sorting
  import opened Store
  import opened Schema
  import opened Query
  import opened Database

  datatype Mutation =
    | InsertRow(table: string, row: Row)
    | PatchRow(table: string, pk: Scalar, fields: seq<(string, Scalar)>)
    | DeleteRow(table: string, pk: Scalar)

  datatype RowChange = RowChange(table: string, pk: Scalar, before: Option<Row>, after: Option<Row>)

  datatype MutateError =
    | BatchTooLarge | UnknownTable | NotFound | CannotChangeKey | UnknownColumn
    | MissingColumn | BadValue | RowTooBig | UniqueViolation(index: string)

  const MAX_BATCH_MUTATIONS: int := 4096

  // ---------------------------------------------------------------- validating rows

  predicate IsInteger(d: Double) {
    d.exp < 2047 && d.Scaled() % Pow2(1074) == 0
  }

  /** The column accepts the value. */
  predicate ValidValue(col: ColumnInfo, v: Scalar) {
    if v.Null? then col.nullable
    else match col.kind
      case BoolKind => v.Bool?
      case IntKind => v.Num? && IsInteger(v.d)
      case FloatKind => v.Num? && v.d.exp < 2047
      case TextKind => v.Str?
      case BytesKind => v.Str?
  }

  const ONE: Double := Binary64(false, 1023, 0)

  lemma {:induction false} Pow2Sum(m: nat, n: nat)
    ensures Pow2(m + n) == Pow2(m) * Pow2(n)
  {
    if m == 0 {
    } else {
      Pow2Sum(m - 1, n);
      assert 2 * Pow2(m - 1) * Pow2(n) == 2 * (Pow2(m - 1) * Pow2(n));
    }
  }

  /** The double one, at the scale every double is a whole number of. */
  lemma OneScaled()
    ensures ONE.Scaled() == Pow2(1074) > 0
  {
    hide Pow2;
    Pow2Sum(52, 1022);
    HiddenBit();
  }

  lemma HiddenBit()
    ensures Pow2(52) == HIDDEN_BIT
  {
    assert Pow2(13) == 8192;
    Pow2Sum(13, 13);
    Pow2Sum(26, 26);
  }

  lemma MultipleExactly(x: int, p: int)
    requires p > 0
    ensures x % p == 0 <==> exists n: int :: x == n * p
  {
    if x % p == 0 {
      assert x == x / p * p;
    }
    if n :| x == n * p {
      assert x == x / p * p + x % p;
      assert x % p == (n - x / p) * p;
      MultipleFar(n - x / p, p);
    }
  }

  lemma MultipleFar(m: int, p: int)
    requires p > 0
    ensures m >= 1 ==> m * p >= p
    ensures m <= -1 ==> m * p <= -p
  {
  }

  /** The integers are the whole multiples of the double one. */
  lemma WholeExactly(d: Double)
    ensures IsInteger(d) <==> d.exp < 2047 && exists n: int :: d.Scaled() == n * ONE.Scaled()
  {
    hide Pow2, Magnitude;
    OneScaled();
    MultipleExactly(d.Scaled(), Pow2(1074));
  }

  /** Which columns accept a value: null those that may be null, a boolean the boolean ones, text
      the two kinds of text, and a finite number the floats, and the ints too when it is whole. */
  lemma AcceptedBy(col: ColumnInfo, v: Scalar)
    ensures v == Null ==> (ValidValue(col, v) <==> col.nullable)
    ensures v.Bool? ==> (ValidValue(col, v) <==> col.kind == BoolKind)
    ensures v.Str? ==> (ValidValue(col, v) <==> col.kind == TextKind || col.kind == BytesKind)
    ensures v.Num? ==> (ValidValue(col, v) <==>
                          && v.d.exp < 2047
                          && (col.kind == FloatKind || (col.kind == IntKind && exists n: int :: v.d.Scaled() == n * ONE.Scaled())))
  {
    hide IsInteger;
    if v.Num? {
      WholeExactly(v.d);
    }
  }

  function FindColumn(columns: seq<ColumnInfo>, name: string): (r: Option<ColumnInfo>)
    ensures r.Some? ==> r.value in columns && r.value.name == name
    ensures r.None? ==> forall i :: 0 <= i < |columns| ==> columns[i].name != name
  {
    if columns == [] then None
    else if columns[0].name == name then Some(columns[0])
    else FindColumn(columns[1..], name)
  }

  /** Fill a row column by column, from the input or with null. */
  function NormalizeFrom(t: TableInfo, input: Row, columns: seq<ColumnInfo>, row: Row): (r: Result<Row, MutateError>)
    decreases |columns|
  {
    if columns == [] then Ok(row)
    else
      var col := columns[0];
      if col.name !in input && !col.nullable then Err(MissingColumn)
      else if !ValidValue(col, Get(input, col.name)) then Err(BadValue)
      else NormalizeFrom(t, input, columns[1..], row[col.name := Get(input, col.name)])
  }

  function NormalizeInsert(t: TableInfo, input: Row, tooBig: Row -> bool): Result<Row, MutateError> {
    var r := NormalizeFrom(t, input, t.columns, map[]);
    if r.Ok? && tooBig(r.value) then Err(RowTooBig) else r
  }

  function PatchFrom(t: TableInfo, pk: Scalar, fields: seq<(string, Scalar)>, row: Row): Result<Row, MutateError>
    decreases |fields|
  {
    if fields == [] then Ok(row)
    else
      var (name, v) := fields[0];
      var col := FindColumn(t.columns, name);
      if name == t.pk && !Same(v, pk) then Err(CannotChangeKey)
      else if col.None? then Err(UnknownColumn)
      else if !ValidValue(col.value, v) then Err(BadValue)
      else PatchFrom(t, pk, fields[1..], row[name := v])
  }

  function Patched(t: TableInfo, pk: Scalar, fields: seq<(string, Scalar)>, before: Row, tooBig: Row -> bool): Result<Row, MutateError> {
    var r := PatchFrom(t, pk, fields, before);
    if r.Err? then r
    else
      var after := r.value[t.pk := pk];
      if tooBig(after) then Err(RowTooBig) else Ok(after)
  }

  // ---------------------------------------------------------------- what validating rows promises

  /** The input gives the column a value it accepts, or leaves out one that may be null. */
  predicate Supplies(input: Row, col: ColumnInfo) {
    (col.name in input || col.nullable) && ValidValue(col, Get(input, col.name))
  }

  predicate Named(columns: seq<ColumnInfo>, name: string) {
    exists i :: 0 <= i < |columns| && columns[i].name == name
  }

  lemma {:induction false} NormalizeFromExactly(t: TableInfo, input: Row, columns: seq<ColumnInfo>, row: Row)
    ensures var r := NormalizeFrom(t, input, columns, row);
            && (r.Ok? <==> forall i :: 0 <= i < |columns| ==> Supplies(input, columns[i]))
            && (r.Ok? ==>
                  && (forall c :: c in r.value <==> c in row || Named(columns, c))
                  && (forall c :: Named(columns, c) ==> r.value[c] == Get(input, c))
                  && (forall c :: c in row && !Named(columns, c) ==> r.value[c] == row[c]))
  {
    hide ValidValue, Named;
    NoNames();
    if columns == [] {
    } else {
      var col, rest := columns[0], columns[1..];
      assert columns == [col] + rest;
      assert forall i :: 0 <= i < |columns| ==> i == 0 || columns[i] == rest[i - 1];
      if Supplies(input, col) {
        NormalizeFromExactly(t, input, rest, row[col.name := Get(input, col.name)]);
        NamesSplit(columns);
      }
    }
  }

  lemma NoNames()
    ensures forall c :: !Named([], c)
  {
  }

  lemma NamesSplit(columns: seq<ColumnInfo>)
    requires columns != []
    ensures forall c :: Named(columns, c) <==> columns[0].name == c || Named(columns[1..], c)
  {
    forall c | Named(columns, c) ensures columns[0].name == c || Named(columns[1..], c) {
      var i :| 0 <= i < |columns| && columns[i].name == c;
      assert i > 0 ==> columns[1..][i - 1].name == c;
    }
    forall c | Named(columns[1..], c) ensures Named(columns, c) {
      var i :| 0 <= i < |columns[1..]| && columns[1..][i].name == c;
      assert columns[i + 1].name == c;
    }
  }

  /** An insert is accepted exactly when it supplies every column and the row is not too big,
      and then the row has exactly the table's columns, as given or null. */
  lemma InsertedExactly(t: TableInfo, input: Row, tooBig: Row -> bool)
    ensures var r := NormalizeInsert(t, input, tooBig);
            && (r.Ok? ==>
                  && (forall i :: 0 <= i < |t.columns| ==> Supplies(input, t.columns[i])) && !tooBig(r.value)
                  && (forall c :: c in r.value <==> Named(t.columns, c))
                  && (forall c :: c in r.value ==> r.value[c] == Get(input, c)))
            && ((forall i :: 0 <= i < |t.columns| ==> Supplies(input, t.columns[i])) ==> r.Ok? || r == Err(RowTooBig))
  {
    hide ValidValue, NormalizeFrom, Named;
    NormalizeFromExactly(t, input, t.columns, map[]);
  }

  /** The field names a known column, keeps the key and has a value the column accepts. */
  predicate Settable(t: TableInfo, pk: Scalar, field: (string, Scalar)) {
    && (field.0 == t.pk ==> Same(field.1, pk))
    && FindColumn(t.columns, field.0).Some? && ValidValue(FindColumn(t.columns, field.0).value, field.1)
  }

  /** The value the last field of a name gives, if any does. */
  function LastField(fields: seq<(string, Scalar)>, name: string): Option<Scalar> {
    if fields == [] then None
    else
      var later := LastField(fields[1..], name);
      if later.Some? then later else if fields[0].0 == name then Some(fields[0].1) else None
  }

  lemma {:induction false} PatchFromExactly(t: TableInfo, pk: Scalar, fields: seq<(string, Scalar)>, row: Row)
    ensures var r := PatchFrom(t, pk, fields, row);
            && (r.Ok? <==> forall i :: 0 <= i < |fields| ==> Settable(t, pk, fields[i]))
            && (r.Ok? ==> forall c ::
                  && (c in r.value <==> c in row || LastField(fields, c).Some?)
                  && (c in r.value ==> r.value[c] == if LastField(fields, c).Some? then LastField(fields, c).value else row[c]))
  {
    hide ValidValue, Same, FindColumn;
    if fields == [] {
    } else {
      var rest := fields[1..];
      assert forall i :: 0 <= i < |fields| ==> i == 0 || fields[i] == rest[i - 1];
      if Settable(t, pk, fields[0]) {
        PatchFromExactly(t, pk, rest, row[fields[0].0 := fields[0].1]);
        assert forall i :: 0 <= i < |rest| ==> rest[i] == fields[i + 1];
      }
    }
  }

  /** A patch is accepted exactly when every field can be set and the row is not too big, and
      then it changes the named columns, the last field of a name winning, and nothing else. */
  lemma PatchedExactly(t: TableInfo, pk: Scalar, fields: seq<(string, Scalar)>, before: Row, tooBig: Row -> bool)
    ensures var r := Patched(t, pk, fields, before, tooBig);
            && (r.Ok? ==>
                  && (forall i :: 0 <= i < |fields| ==> Settable(t, pk, fields[i])) && !tooBig(r.value)
                  && Get(r.value, t.pk) == pk
                  && (forall c :: c != t.pk ==>
                        Get(r.value, c) == if LastField(fields, c).Some? then LastField(fields, c).value else Get(before, c)))
            && ((forall i :: 0 <= i < |fields| ==> Settable(t, pk, fields[i])) ==> r.Ok? || r == Err(RowTooBig))
  {
    hide ValidValue, Same, FindColumn, PatchFrom, LastField;
    PatchFromExactly(t, pk, fields, before);
  }

  /** Fill a row column by column. */
  method FillRow(t: TableInfo, input: Row, tooBig: Row -> bool) returns (r: Result<Row, MutateError>)
    ensures r == NormalizeInsert(t, input, tooBig)
  {
    hide ValidValue;
    var row: Row := map[];
    for i := 0 to |t.columns|
      invariant NormalizeFrom(t, input, t.columns, map[]) == NormalizeFrom(t, input, t.columns[i..], row)
    {
      var col := t.columns[i];
      assert t.columns[i..][1..] == t.columns[i + 1..];
      if col.name !in input && !col.nullable {
        return Err(MissingColumn);
      }
      if !ValidValue(col, Get(input, col.name)) {
        return Err(BadValue);
      }
      row := row[col.name := Get(input, col.name)];
    }
    if tooBig(row) {
      return Err(RowTooBig);
    }
    r := Ok(row);
  }

  /** Set the fields of a patch one by one. */
  method ApplyFields(t: TableInfo, pk: Scalar, fields: seq<(string, Scalar)>, before: Row, tooBig: Row -> bool)
    returns (r: Result<Row, MutateError>)
    ensures r == Patched(t, pk, fields, before, tooBig)
  {
    hide ValidValue, Same;
    var after := before;
    for i := 0 to |fields|
      invariant PatchFrom(t, pk, fields, before) == PatchFrom(t, pk, fields[i..], after)
    {
      var (name, v) := fields[i];
      assert fields[i..][1..] == fields[i + 1..];
      if name == t.pk && !Same(v, pk) {
        return Err(CannotChangeKey);
      }
      var col := FindColumn(t.columns, name);
      if col.None? {
        return Err(UnknownColumn);
      }
      if !ValidValue(col.value, v) {
        return Err(BadValue);
      }
      after := after[name := v];
    }
    after := after[t.pk := pk];
    if tooBig(after) {
      return Err(RowTooBig);
    }
    r := Ok(after);
  }

  // ---------------------------------------------------------------- uniqueness

  function NonPk(columns: seq<string>, pk: string): seq<string> {
    Select(columns, c => c != pk)
  }

  function UniqueTuple(t: TableInfo, idx: IndexInfo, row: Row): seq<Scalar> {
    TupleOf(NonPk(idx.columns, t.pk), row)
  }

  predicate HasNull(k: seq<Scalar>) {
    exists i :: 0 <= i < |k| && k[i].Null?
  }

  /** The row takes a new non-null value in the index. */
  predicate Assigns(t: TableInfo, idx: IndexInfo, before: Option<Row>, row: Row) {
    && !HasNull(UniqueTuple(t, idx, row))
    && (before.Some? ==> EncodeKey(UniqueTuple(t, idx, row)) != EncodeKey(UniqueTuple(t, idx, before.value)))
  }

  /** No entry under the prefix of the row's unique tuple, of the first two, has another key. */
  predicate FreeOf(s: State, t: TableInfo, idx: IndexInfo, row: Row) {
    var prefix := EncodeKey(UniqueTuple(t, idx, row));
    var hits := Scan(KeyspaceOf(s, KeyspaceId(t.name, idx.name)), prefix, PrefixUpperBound(prefix), false, 2);
    forall i :: 0 <= i < |hits| ==> Same(hits[i].pk, Get(row, t.pk))
  }

  predicate PassesUnique(s: State, t: TableInfo, idx: IndexInfo, before: Option<Row>, row: Row) {
    idx.unique && Assigns(t, idx, before, row) ==> FreeOf(s, t, idx, row)
  }

  /** The first index the row violates. */
  function FirstViolation(s: State, t: TableInfo, indexes: seq<IndexInfo>, before: Option<Row>, row: Row): (r: Option<string>)
    ensures r.None? <==> forall i :: 0 <= i < |indexes| ==> PassesUnique(s, t, indexes[i], before, row)
  {
    if indexes == [] then None
    else if !PassesUnique(s, t, indexes[0], before, row) then Some(indexes[0].name)
    else
      assert indexes == [indexes[0]] + indexes[1..];
      FirstViolation(s, t, indexes[1..], before, row)
  }

  /** The rows agree on every column of the index but the primary key. */
  ghost predicate Agree(t: TableInfo, idx: IndexInfo, a: Row, b: Row) {
    forall c :: c in idx.columns && c != t.pk ==> Get(a, c) == Get(b, c)
  }

  /** No column of the index but the primary key is null. */
  ghost predicate Filled(t: TableInfo, idx: IndexInfo, row: Row) {
    forall c :: c in idx.columns && c != t.pk ==> Get(row, c) != Null
  }

  /** What the tuples say of the columns. */
  lemma TuplesByColumn(t: TableInfo, idx: IndexInfo, a: Row, b: Row)
    ensures UniqueTuple(t, idx, a) == UniqueTuple(t, idx, b) <==> Agree(t, idx, a, b)
    ensures EncodeKey(UniqueTuple(t, idx, a)) == EncodeKey(UniqueTuple(t, idx, b)) <==> Agree(t, idx, a, b)
    ensures HasNull(UniqueTuple(t, idx, a)) <==> !Filled(t, idx, a)
  {
    hide EncodeKey;
    var columns := NonPk(idx.columns, t.pk);
    var u, v := UniqueTuple(t, idx, a), UniqueTuple(t, idx, b);
    forall c | c in idx.columns && c != t.pk ensures exists i :: 0 <= i < |columns| && columns[i] == c {
      assert c in columns;
    }
    forall i | 0 <= i < |columns| ensures columns[i] in idx.columns && columns[i] != t.pk {
      assert columns[i] in columns;
    }
    if EncodeKey(u) == EncodeKey(v) {
      KeyInjective(u, v);
    }
  }

  /** A row with a null in a unique column passes, whatever is stored, and so does a row that
      keeps what it had in all of them. */
  lemma NullPasses(s: State, t: TableInfo, idx: IndexInfo, before: Option<Row>, row: Row)
    requires (exists c :: c in idx.columns && c != t.pk && Get(row, c) == Null) || (before.Some? && Agree(t, idx, before.value, row))
    ensures PassesUnique(s, t, idx, before, row)
  {
    hide EncodeKey, HasNull, UniqueTuple, FreeOf;
    TuplesByColumn(t, idx, row, row);
    if before.Some? {
      TuplesByColumn(t, idx, row, before.value);
    }
  }

  /** Check one index; null tuples and tuples the row already had need no check. */
  method CheckIndex(s: State, t: TableInfo, idx: IndexInfo, row: Row, before: Option<Row>) returns (ok: bool)
    ensures ok == PassesUnique(s, t, idx, before, row)
    ensures !idx.unique ==> ok
    ensures (exists c :: c in idx.columns && c != t.pk && Get(row, c) == Null) ==> ok
  {
    hide UniqueTuple, EncodeKey, Scan, Same, HasNull, PrefixUpperBound;
    if exists c :: c in idx.columns && c != t.pk && Get(row, c) == Null {
      NullPasses(s, t, idx, before, row);
    }
    if !idx.unique || HasNull(UniqueTuple(t, idx, row)) {
      return true;
    }
    var prefix := BuildKey(UniqueTuple(t, idx, row));
    if before.Some? {
      var beforePrefix := BuildKey(UniqueTuple(t, idx, before.value));
      if prefix == beforePrefix {
        return true;
      }
    }
    var hi := FindPrefixUpperBound(prefix);
    var hits := Scan(KeyspaceOf(s, KeyspaceId(t.name, idx.name)), prefix, hi, false, 2);
    ok := forall j :: 0 <= j < |hits| ==> Same(hits[j].pk, Get(row, t.pk));
  }

  /** Check every index, and name the first that is violated. */
  method CheckUnique(s: State, t: TableInfo, row: Row, before: Option<Row>) returns (r: Option<string>)
    ensures r == FirstViolation(s, t, t.indexes, before, row)
  {
    hide PassesUnique;
    for i := 0 to |t.indexes|
      invariant FirstViolation(s, t, t.indexes, before, row) == FirstViolation(s, t, t.indexes[i..], before, row)
    {
      assert t.indexes[i..][1..] == t.indexes[i + 1..];
      var ok := CheckIndex(s, t, t.indexes[i], row, before);
      if !ok {
        return Some(t.indexes[i].name);
      }
    }
    r := None;
  }

  // ---------------------------------------------------------------- one mutation

  function FindTable(schema: seq<TableInfo>, name: string): (r: Option<TableInfo>)
    ensures r.Some? ==> r.value in schema && r.value.name == name
    ensures r.None? ==> forall i :: 0 <= i < |schema| ==> schema[i].name != name
  {
    if schema == [] then None
    else if schema[0].name == name then Some(schema[0])
    else FindTable(schema[1..], name)
  }

  function GetRaw(s: State, t: TableInfo, pk: Scalar): Option<Row> {
    var hit := GetByKey(s, KeyspaceId(t.name, PRIMARY), EncodeKey([pk]));
    if hit.Some? then Some(hit.value.row) else None
  }

  function Checked(s: State, t: TableInfo, ch: RowChange): Result<Option<RowChange>, MutateError>
    requires ch.after.Some?
  {
    var v := FirstViolation(s, t, t.indexes, ch.before, ch.after.value);
    if v.Some? then Err(UniqueViolation(v.value)) else Ok(Some(ch))
  }

  /** The change a mutation makes, read against the committed store; a delete of an absent
      row makes none. */
  function Resolve(s: State, schema: seq<TableInfo>, tooBig: Row -> bool, m: Mutation): Result<Option<RowChange>, MutateError> {
    var table := FindTable(schema, m.table);
    if table.None? then Err(UnknownTable)
    else
      var t := table.value;
      match m
      case InsertRow(_, input) =>
        var row := NormalizeInsert(t, input, tooBig);
        if row.Err? then Err(row.error)
        else
          var pk := Get(row.value, t.pk);
          Checked(s, t, RowChange(t.name, pk, GetRaw(s, t, pk), Some(row.value)))
      case PatchRow(_, pk, fields) =>
        var before := GetRaw(s, t, pk);
        if before.None? then Err(NotFound)
        else
          var after := Patched(t, pk, fields, before.value, tooBig);
          if after.Err? then Err(after.error)
          else Checked(s, t, RowChange(t.name, pk, before, Some(after.value)))
      case DeleteRow(_, pk) =>
        var before := GetRaw(s, t, pk);
        if before.None? then Ok(None) else Ok(Some(RowChange(t.name, pk, before, None)))
  }

  method ResolveMutation(s: State, schema: seq<TableInfo>, tooBig: Row -> bool, m: Mutation)
    returns (r: Result<Option<RowChange>, MutateError>)
    ensures r == Resolve(s, schema, tooBig, m)
  {
    hide NormalizeInsert, Patched, FirstViolation, GetRaw;
    var table := FindTable(schema, m.table);
    if table.None? {
      return Err(UnknownTable);
    }
    var t := table.value;
    match m {
      case InsertRow(_, input) =>
        var row := FillRow(t, input, tooBig);
        if row.Err? {
          return Err(row.error);
        }
        var pk := Get(row.value, t.pk);
        var before := GetRaw(s, t, pk);
        var violated := CheckUnique(s, t, row.value, before);
        r := if violated.Some? then Err(UniqueViolation(violated.value)) else Ok(Some(RowChange(t.name, pk, before, Some(row.value))));
      case PatchRow(_, pk, fields) =>
        var before := GetRaw(s, t, pk);
        if before.None? {
          return Err(NotFound);
        }
        var after := ApplyFields(t, pk, fields, before.value, tooBig);
        if after.Err? {
          return Err(after.error);
        }
        var violated := CheckUnique(s, t, after.value, before);
        r := if violated.Some? then Err(UniqueViolation(violated.value)) else Ok(Some(RowChange(t.name, pk, before, Some(after.value))));
      case DeleteRow(_, pk) =>
        var before := GetRaw(s, t, pk);
        r := if before.None? then Ok(None) else Ok(Some(RowChange(t.name, pk, before, None)));
    }
  }

  function ResolveAll(s: State, schema: seq<TableInfo>, tooBig: Row -> bool, ms: seq<Mutation>): Result<seq<RowChange>, MutateError> {
    if ms == [] then Ok([])
    else
      var init := ResolveAll(s, schema, tooBig, ms[..|ms| - 1]);
      if init.Err? then init
      else
        var last := Resolve(s, schema, tooBig, ms[|ms| - 1]);
        if last.Err? then Err(last.error)
        else Ok(init.value + (if last.value.Some? then [last.value.value] else []))
  }

  // ---------------------------------------------------------------- what a mutation asks for

  /** Field `i` is the last of its name. */
  predicate Final(fields: seq<(string, Scalar)>, i: nat) {
    i < |fields| && forall j :: i < j < |fields| ==> fields[j].0 != fields[i].0
  }

  predicate Mentions(fields: seq<(string, Scalar)>, column: string) {
    exists i :: 0 <= i < |fields| && fields[i].0 == column
  }

  /** The change sets a row with exactly the columns of the table, each as given or null,
      whatever row its key had. */
  ghost predicate Inserts(s: State, t: TableInfo, input: Row, ch: RowChange) {
    && ch.table == t.name && ch.after.Some? && ch.pk == Get(ch.after.value, t.pk) && ch.before == GetRaw(s, t, ch.pk)
    && (forall c :: c in ch.after.value <==> Named(t.columns, c))
    && (forall c :: c in ch.after.value ==> ch.after.value[c] == Get(input, c))
  }

  /** The change sets the row of the key to what it was with the fields over it, the last of a
      name winning. */
  ghost predicate Patches(s: State, t: TableInfo, pk: Scalar, fields: seq<(string, Scalar)>, ch: RowChange) {
    && ch.table == t.name && ch.pk == pk && ch.before == GetRaw(s, t, pk) && ch.before.Some? && ch.after.Some?
    && var before, after := ch.before.value, ch.after.value;
       && Get(after, t.pk) == pk
       && (forall c :: c in after <==> c in before || Mentions(fields, c) || c == t.pk)
       && (forall i: nat :: Final(fields, i) && fields[i].0 != t.pk ==> Get(after, fields[i].0) == fields[i].1)
       && (forall c :: c != t.pk && !Mentions(fields, c) ==> Get(after, c) == Get(before, c))
  }

  /** The change takes away the row of the key. */
  ghost predicate Deletes(s: State, t: TableInfo, pk: Scalar, ch: RowChange) {
    ch.table == t.name && ch.pk == pk && ch.before == GetRaw(s, t, pk) && ch.before.Some? && ch.after == None
  }

  /** What the mutation asks for, read against the committed rows; deleting an absent row asks
      for nothing. */
  ghost predicate AsksFor(s: State, t: TableInfo, m: Mutation, ch: Option<RowChange>) {
    match m
    case InsertRow(_, input) => ch.Some? && Inserts(s, t, input, ch.value)
    case PatchRow(_, pk, fields) => ch.Some? && Patches(s, t, pk, fields, ch.value)
    case DeleteRow(_, pk) => if GetRaw(s, t, pk).Some? then ch.Some? && Deletes(s, t, pk, ch.value) else ch == None
  }

  /** The row asked for is too big, or breaks its first unique index. */
  ghost predicate RowRefused(s: State, t: TableInfo, tooBig: Row -> bool, ch: RowChange, e: MutateError) {
    ch.after.Some? &&
    if tooBig(ch.after.value) then e == RowTooBig
    else exists k :: 0 <= k < |t.indexes| && !PassesUnique(s, t, t.indexes[k], ch.before, ch.after.value)
                     && (forall j :: 0 <= j < k ==> PassesUnique(s, t, t.indexes[j], ch.before, ch.after.value))
                     && e == UniqueViolation(t.indexes[k].name)
  }

  /** Column `i` is the first the input does not supply. */
  predicate FirstMissing(t: TableInfo, input: Row, i: nat) {
    i < |t.columns| && !Supplies(input, t.columns[i]) && forall j :: 0 <= j < i ==> Supplies(input, t.columns[j])
  }

  ghost predicate InsertRefused(s: State, t: TableInfo, tooBig: Row -> bool, input: Row, e: MutateError) {
    || (exists i: nat :: FirstMissing(t, input, i) &&
          e == if t.columns[i].name !in input && !t.columns[i].nullable then MissingColumn else BadValue)
    || ((forall i :: 0 <= i < |t.columns| ==> Supplies(input, t.columns[i])) &&
          exists ch :: Inserts(s, t, input, ch) && RowRefused(s, t, tooBig, ch, e))
  }

  /** Column `k` is the first of its name. */
  predicate FirstNamed(t: TableInfo, name: string, k: nat) {
    k < |t.columns| && t.columns[k].name == name && forall j :: 0 <= j < k ==> t.columns[j].name != name
  }

  /** The field leaves the key alone, names a column, and has a value the column accepts. */
  ghost predicate FieldFits(t: TableInfo, pk: Scalar, name: string, v: Scalar) {
    (name == t.pk ==> Same(v, pk)) && exists k: nat :: FirstNamed(t, name, k) && ValidValue(t.columns[k], v)
  }

  /** Field `i` is the first that does not fit. */
  ghost predicate FirstUnfit(t: TableInfo, pk: Scalar, fields: seq<(string, Scalar)>, i: nat) {
    && i < |fields| && !FieldFits(t, pk, fields[i].0, fields[i].1)
    && forall j :: 0 <= j < i ==> FieldFits(t, pk, fields[j].0, fields[j].1)
  }

  ghost predicate PatchRefused(s: State, t: TableInfo, tooBig: Row -> bool, pk: Scalar, fields: seq<(string, Scalar)>, e: MutateError) {
    if GetRaw(s, t, pk).None? then e == NotFound
    else
      || (exists i: nat :: FirstUnfit(t, pk, fields, i) &&
            e == if fields[i].0 == t.pk && !Same(fields[i].1, pk) then CannotChangeKey
                 else if !Named(t.columns, fields[i].0) then UnknownColumn else BadValue)
      || ((forall i :: 0 <= i < |fields| ==> FieldFits(t, pk, fields[i].0, fields[i].1)) &&
            exists ch :: Patches(s, t, pk, fields, ch) && RowRefused(s, t, tooBig, ch, e))
  }

  /** Why a mutation of the table is refused; a delete never is. */
  ghost predicate Refused(s: State, t: TableInfo, tooBig: Row -> bool, m: Mutation, e: MutateError) {
    match m
    case InsertRow(_, input) => InsertRefused(s, t, tooBig, input, e)
    case PatchRow(_, pk, fields) => PatchRefused(s, t, tooBig, pk, fields, e)
    case DeleteRow(_, _) => false
  }

  // ---------------------------------------------------------------- a mutation does what it asks for

  lemma {:induction false} FindColumnFirst(t: TableInfo, columns: seq<ColumnInfo>, name: string)
    ensures FindColumn(columns, name).Some? <==> Named(columns, name)
    ensures forall k :: 0 <= k < |columns| && columns[k].name == name && (forall j :: 0 <= j < k ==> columns[j].name != name)
                        ==> FindColumn(columns, name) == Some(columns[k])
  {
    NoNames();
    if columns == [] {
    } else {
      FindColumnFirst(t, columns[1..], name);
      NamesSplit(columns);
      assert forall k :: 0 < k < |columns| ==> columns[k] == columns[1..][k - 1];
      forall k | 0 < k < |columns| && columns[k].name == name && (forall j :: 0 <= j < k ==> columns[j].name != name)
        ensures FindColumn(columns[1..], name) == Some(columns[k])
      {
        assert forall j :: 0 <= j < k - 1 ==> columns[1..][j] == columns[j + 1];
      }
    }
  }

  lemma FirstNamedExists(t: TableInfo, name: string) returns (k: nat)
    requires Named(t.columns, name)
    ensures FirstNamed(t, name, k)
  {
    k := 0;
    while t.columns[k].name != name
      invariant k < |t.columns| && forall j :: 0 <= j < k ==> t.columns[j].name != name
      invariant exists i :: k <= i < |t.columns| && t.columns[i].name == name
      decreases |t.columns| - k
    {
      k := k + 1;
    }
  }

  lemma FieldFitsExactly(t: TableInfo, pk: Scalar, field: (string, Scalar))
    ensures FieldFits(t, pk, field.0, field.1) <==> Settable(t, pk, field)
  {
    hide ValidValue, Same;
    FindColumnFirst(t, t.columns, field.0);
    if k: nat :| FirstNamed(t, field.0, k) && ValidValue(t.columns[k], field.1) {
      assert FindColumn(t.columns, field.0) == Some(t.columns[k]);
    } else if Named(t.columns, field.0) {
      var k := FirstNamedExists(t, field.0);
      assert FindColumn(t.columns, field.0) == Some(t.columns[k]);
    }
  }

  lemma {:induction false} FinalIsLast(fields: seq<(string, Scalar)>, name: string)
    ensures LastField(fields, name).Some? <==> Mentions(fields, name)
    ensures forall i: nat :: Final(fields, i) && fields[i].0 == name ==> LastField(fields, name) == Some(fields[i].1)
  {
    if fields == [] {
    } else {
      FinalIsLast(fields[1..], name);
      assert forall i :: 0 < i < |fields| ==> fields[i] == fields[1..][i - 1];
      if Mentions(fields, name) {
        var i :| 0 <= i < |fields| && fields[i].0 == name;
        assert i > 0 ==> fields[1..][i - 1].0 == name;
      }
      forall i: nat | Final(fields, i) && fields[i].0 == name ensures LastField(fields, name) == Some(fields[i].1) {
        if i > 0 {
          assert Final(fields[1..], i - 1);
        } else {
          assert !Mentions(fields[1..], name);
        }
      }
    }
  }

  lemma {:induction false} FillFails(t: TableInfo, input: Row, columns: seq<ColumnInfo>, row: Row) returns (i: nat)
    requires NormalizeFrom(t, input, columns, row).Err?
    ensures i < |columns| && !Supplies(input, columns[i]) && (forall j :: 0 <= j < i ==> Supplies(input, columns[j]))
    ensures NormalizeFrom(t, input, columns, row).error ==
            if columns[i].name !in input && !columns[i].nullable then MissingColumn else BadValue
  {
    hide ValidValue;
    if !Supplies(input, columns[0]) {
      i := 0;
    } else {
      i := FillFails(t, input, columns[1..], row[columns[0].name := Get(input, columns[0].name)]);
      assert forall j :: 0 < j <= i ==> columns[j] == columns[1..][j - 1];
      i := i + 1;
    }
  }

  lemma {:induction false} PatchFails(t: TableInfo, pk: Scalar, fields: seq<(string, Scalar)>, row: Row) returns (i: nat)
    requires PatchFrom(t, pk, fields, row).Err?
    ensures i < |fields| && !Settable(t, pk, fields[i]) && (forall j :: 0 <= j < i ==> Settable(t, pk, fields[j]))
    ensures PatchFrom(t, pk, fields, row).error ==
            if fields[i].0 == t.pk && !Same(fields[i].1, pk) then CannotChangeKey
            else if FindColumn(t.columns, fields[i].0).None? then UnknownColumn else BadValue
  {
    hide ValidValue, Same, FindColumn;
    if !Settable(t, pk, fields[0]) {
      i := 0;
    } else {
      i := PatchFails(t, pk, fields[1..], row[fields[0].0 := fields[0].1]);
      assert forall j :: 0 < j <= i ==> fields[j] == fields[1..][j - 1];
      i := i + 1;
    }
  }

  lemma PatchMade(s: State, t: TableInfo, tooBig: Row -> bool, pk: Scalar, fields: seq<(string, Scalar)>)
    requires GetRaw(s, t, pk).Some? && PatchFrom(t, pk, fields, GetRaw(s, t, pk).value).Ok?
    ensures var row := PatchFrom(t, pk, fields, GetRaw(s, t, pk).value).value[t.pk := pk];
            Patches(s, t, pk, fields, RowChange(t.name, pk, GetRaw(s, t, pk), Some(row)))
  {
    hide ValidValue, PatchFrom, Settable, LastField, GetRaw, Mentions;
    PatchFromExactly(t, pk, fields, GetRaw(s, t, pk).value);
    forall name
      ensures LastField(fields, name).Some? <==> Mentions(fields, name)
      ensures forall i: nat :: Final(fields, i) && fields[i].0 == name ==> LastField(fields, name) == Some(fields[i].1)
    {
      FinalIsLast(fields, name);
    }
  }

  /** A change that sets a row is the only one that does what was asked. */
  lemma AskedOnce(s: State, t: TableInfo, m: Mutation, a: RowChange, b: RowChange)
    requires AsksFor(s, t, m, Some(a)) && AsksFor(s, t, m, Some(b))
    ensures a == b
  {
    hide GetRaw, Named;
    match m
    case InsertRow(_, input) =>
      assert a.after.value == b.after.value;
    case PatchRow(_, pk, fields) =>
      var x, y := a.after.value, b.after.value;
      forall c ensures Get(x, c) == Get(y, c) && (c in x <==> c in y) {
        if Mentions(fields, c) && c != t.pk {
          var i := FinalExists(fields, c);
          assert Final(fields, i) && fields[i].0 != t.pk;
        }
      }
      assert forall c :: c in x ==> x[c] == Get(x, c) && y[c] == Get(y, c);
      assert x == y;
    case DeleteRow(_, _) =>
  }

  lemma FinalExists(fields: seq<(string, Scalar)>, name: string) returns (i: nat)
    requires Mentions(fields, name)
    ensures Final(fields, i) && fields[i].0 == name
  {
    i := |fields| - 1;
    while fields[i].0 != name
      invariant i < |fields| && forall j :: i < j < |fields| ==> fields[j].0 != name
      invariant exists k :: 0 <= k <= i && fields[k].0 == name
      decreases i
    {
      i := i - 1;
    }
  }

  lemma ViolationIsFirst(s: State, t: TableInfo, indexes: seq<IndexInfo>, before: Option<Row>, row: Row) returns (k: nat)
    requires FirstViolation(s, t, indexes, before, row).Some?
    ensures k < |indexes| && !PassesUnique(s, t, indexes[k], before, row)
    ensures forall j :: 0 <= j < k ==> PassesUnique(s, t, indexes[j], before, row)
    ensures FirstViolation(s, t, indexes, before, row).value == indexes[k].name
  {
    hide PassesUnique;
    if !PassesUnique(s, t, indexes[0], before, row) {
      k := 0;
    } else {
      k := ViolationIsFirst(s, t, indexes[1..], before, row);
      assert forall j :: 0 < j <= k ==> indexes[j] == indexes[1..][j - 1];
      k := k + 1;
    }
  }

  lemma CheckedExactly(s: State, t: TableInfo, tooBig: Row -> bool, ch: RowChange)
    requires ch.after.Some? && !tooBig(ch.after.value)
    ensures Checked(s, t, ch).Ok? ==> Checked(s, t, ch).value == Some(ch)
    ensures Checked(s, t, ch).Err? ==> RowRefused(s, t, tooBig, ch, Checked(s, t, ch).error)
    ensures forall e :: RowRefused(s, t, tooBig, ch, e) ==> Checked(s, t, ch) == Err(e)
  {
    hide PassesUnique, FirstViolation;
    if FirstViolation(s, t, t.indexes, ch.before, ch.after.value).Some? {
      var k := ViolationIsFirst(s, t, t.indexes, ch.before, ch.after.value);
    }
  }

  /** Refusal and error of an insert that fills its row are those of the row. */
  lemma InsertResolved(s: State, schema: seq<TableInfo>, tooBig: Row -> bool, m: Mutation, t: TableInfo)
    requires FindTable(schema, m.table) == Some(t) && m.InsertRow?
    ensures var r := Resolve(s, schema, tooBig, m);
            && (r.Ok? ==> AsksFor(s, t, m, r.value))
            && (r.Err? ==> Refused(s, t, tooBig, m, r.error))
            && (r.Ok? ==> forall e :: !Refused(s, t, tooBig, m, e))
  {
    hide ValidValue, NormalizeFrom, Named, GetRaw, Checked, Supplies, RowRefused, Inserts;
    var input := m.row;
    NormalizeFromExactly(t, input, t.columns, map[]);
    var filled := NormalizeFrom(t, input, t.columns, map[]);
    if filled.Err? {
      var i := FillFails(t, input, t.columns, map[]);
      assert FirstMissing(t, input, i);
    } else {
      var row := filled.value;
      var ch := RowChange(t.name, Get(row, t.pk), GetRaw(s, t, Get(row, t.pk)), Some(row));
      assert Inserts(s, t, input, ch) by {
        InsertsRow(s, t, input, row);
      }
      RowChecked(s, t, tooBig, m, ch);
    }
  }

  lemma InsertsRow(s: State, t: TableInfo, input: Row, row: Row)
    requires NormalizeFrom(t, input, t.columns, map[]) == Ok(row)
    ensures Inserts(s, t, input, RowChange(t.name, Get(row, t.pk), GetRaw(s, t, Get(row, t.pk)), Some(row)))
  {
    hide ValidValue, NormalizeFrom, Named, GetRaw;
    NormalizeFromExactly(t, input, t.columns, map[]);
  }

  /** The row asked for is the one checked, so it is refused exactly for its size or an index. */
  lemma RowChecked(s: State, t: TableInfo, tooBig: Row -> bool, m: Mutation, ch: RowChange)
    requires AsksFor(s, t, m, Some(ch)) && ch.after.Some?
    ensures tooBig(ch.after.value) ==> RowRefused(s, t, tooBig, ch, RowTooBig)
    ensures !tooBig(ch.after.value) ==>
              var r := Checked(s, t, ch);
              && (r.Ok? ==> r.value == Some(ch))
              && (r.Err? ==> RowRefused(s, t, tooBig, ch, r.error))
              && (r.Ok? ==> forall other, e :: AsksFor(s, t, m, Some(other)) ==> !RowRefused(s, t, tooBig, other, e))
  {
    hide AsksFor, RowRefused, Checked, PassesUnique;
    if !tooBig(ch.after.value) {
      CheckedExactly(s, t, tooBig, ch);
      forall other | AsksFor(s, t, m, Some(other)) ensures other == ch {
        AskedOnce(s, t, m, other, ch);
      }
    } else {
      BigRefused(s, t, tooBig, ch);
    }
  }

  lemma BigRefused(s: State, t: TableInfo, tooBig: Row -> bool, ch: RowChange)
    requires ch.after.Some? && tooBig(ch.after.value)
    ensures RowRefused(s, t, tooBig, ch, RowTooBig)
  {
  }

  lemma PatchResolved(s: State, schema: seq<TableInfo>, tooBig: Row -> bool, m: Mutation, t: TableInfo)
    requires FindTable(schema, m.table) == Some(t) && m.PatchRow?
    ensures var r := Resolve(s, schema, tooBig, m);
            && (r.Ok? ==> AsksFor(s, t, m, r.value))
            && (r.Err? ==> Refused(s, t, tooBig, m, r.error))
            && (r.Ok? ==> forall e :: !Refused(s, t, tooBig, m, e))
  {
    hide ValidValue, PatchFrom, Named, GetRaw, Checked, Settable, FieldFits, RowRefused, Patches, FindColumn, Same;
    var pk, fields := m.pk, m.fields;
    forall i | 0 <= i < |fields|
      ensures FieldFits(t, pk, fields[i].0, fields[i].1) <==> Settable(t, pk, fields[i])
      ensures FindColumn(t.columns, fields[i].0).None? <==> !Named(t.columns, fields[i].0)
    {
      FieldFitsExactly(t, pk, fields[i]);
      FindColumnFirst(t, t.columns, fields[i].0);
    }
    if GetRaw(s, t, pk).Some? {
      var before := GetRaw(s, t, pk).value;
      PatchFromExactly(t, pk, fields, before);
      var patched := PatchFrom(t, pk, fields, before);
      if patched.Err? {
        var i := PatchFails(t, pk, fields, before);
        assert FirstUnfit(t, pk, fields, i);
      } else {
        var ch := RowChange(t.name, pk, GetRaw(s, t, pk), Some(patched.value[t.pk := pk]));
        PatchMade(s, t, tooBig, pk, fields);
        RowChecked(s, t, tooBig, m, ch);
      }
    }
  }

  lemma RowRefusedOnce(s: State, t: TableInfo, tooBig: Row -> bool, ch: RowChange, e: MutateError, e': MutateError)
    requires RowRefused(s, t, tooBig, ch, e) && RowRefused(s, t, tooBig, ch, e')
    ensures e == e'
  {
    hide PassesUnique;
  }

  lemma RefusedOnce(s: State, t: TableInfo, tooBig: Row -> bool, m: Mutation, e: MutateError, e': MutateError)
    requires Refused(s, t, tooBig, m, e) && Refused(s, t, tooBig, m, e')
    ensures e == e'
  {
    hide RowRefused, Inserts, Patches, Supplies, FieldFits, GetRaw, Named, Same;
    forall a, b | AsksFor(s, t, m, Some(a)) && AsksFor(s, t, m, Some(b)) && RowRefused(s, t, tooBig, a, e) && RowRefused(s, t, tooBig, b, e')
      ensures e == e'
    {
      AskedOnce(s, t, m, a, b);
      RowRefusedOnce(s, t, tooBig, a, e, e');
    }
  }

  /** One mutation of a known table is refused for a reason exactly when that reason holds, and
      otherwise makes the change it asks for. */
  lemma ResolvedExactly(s: State, schema: seq<TableInfo>, tooBig: Row -> bool, m: Mutation, t: TableInfo)
    requires FindTable(schema, m.table) == Some(t)
    ensures var r := Resolve(s, schema, tooBig, m);
            && (r.Ok? ==> AsksFor(s, t, m, r.value))
            && (forall e :: r == Err(e) <==> Refused(s, t, tooBig, m, e))
  {
    hide Resolve, AsksFor, Refused;
    match m {
      case InsertRow(_, _) => InsertResolved(s, schema, tooBig, m, t);
      case PatchRow(_, _, _) => PatchResolved(s, schema, tooBig, m, t);
      case DeleteRow(_, _) => DeleteResolved(s, schema, tooBig, m, t);
    }
    var r := Resolve(s, schema, tooBig, m);
    forall e | Refused(s, t, tooBig, m, e) && r.Err? ensures r == Err(e) {
      RefusedOnce(s, t, tooBig, m, e, r.error);
    }
  }

  lemma DeleteResolved(s: State, schema: seq<TableInfo>, tooBig: Row -> bool, m: Mutation, t: TableInfo)
    requires FindTable(schema, m.table) == Some(t) && m.DeleteRow?
    ensures var r := Resolve(s, schema, tooBig, m); r.Ok? && AsksFor(s, t, m, r.value)
    ensures forall e :: !Refused(s, t, tooBig, m, e)
  {
    hide GetRaw;
  }

  // ---------------------------------------------------------------- a batch does what it asks for

  /** The change is what the mutation asks of its table. */
  ghost predicate Made(s: State, schema: seq<TableInfo>, m: Mutation, ch: Option<RowChange>) {
    exists t :: t in schema && t.name == m.table && AsksFor(s, t, m, ch)
  }

  ghost predicate Fails(s: State, schema: seq<TableInfo>, tooBig: Row -> bool, m: Mutation, e: MutateError) {
    || (e == UnknownTable && forall t :: t in schema ==> t.name != m.table)
    || exists t :: t in schema && t.name == m.table && Refused(s, t, tooBig, m, e)
  }

  /** The changes are those the mutations ask for, in order, all read against the committed rows. */
  ghost predicate Answers(s: State, schema: seq<TableInfo>, ms: seq<Mutation>, chs: seq<RowChange>) {
    if ms == [] then chs == []
    else
      var m, rest := ms[|ms| - 1], ms[..|ms| - 1];
      || (Made(s, schema, m, None) && Answers(s, schema, rest, chs))
      || (chs != [] && Made(s, schema, m, Some(chs[|chs| - 1])) && Answers(s, schema, rest, chs[..|chs| - 1]))
  }

  /** Mutation `i` is the first that fails, for this reason. */
  ghost predicate FailsFirst(s: State, schema: seq<TableInfo>, tooBig: Row -> bool, ms: seq<Mutation>, i: nat, e: MutateError) {
    && i < |ms| && Fails(s, schema, tooBig, ms[i], e)
    && forall j, e' :: 0 <= j < i ==> !Fails(s, schema, tooBig, ms[j], e')
  }

  /** The error of the batch: that of the first mutation to fail. */
  ghost predicate BatchFails(s: State, schema: seq<TableInfo>, tooBig: Row -> bool, ms: seq<Mutation>, e: MutateError) {
    exists i: nat :: FailsFirst(s, schema, tooBig, ms, i, e)
  }

  ghost predicate NoneFails(s: State, schema: seq<TableInfo>, tooBig: Row -> bool, ms: seq<Mutation>) {
    forall j, e :: 0 <= j < |ms| ==> !Fails(s, schema, tooBig, ms[j], e)
  }

  lemma ResolveFails(s: State, schema: seq<TableInfo>, tooBig: Row -> bool, m: Mutation)
    requires ValidSchema(schema)
    ensures var r := Resolve(s, schema, tooBig, m);
            && (r.Ok? ==> Made(s, schema, m, r.value))
            && (forall e :: r == Err(e) <==> Fails(s, schema, tooBig, m, e))
  {
    hide AsksFor, Refused;
    var found := FindTable(schema, m.table);
    if found.Some? {
      ResolvedExactly(s, schema, tooBig, m, found.value);
      forall t | t in schema && t.name == m.table ensures t == found.value {
        var i :| 0 <= i < |schema| && schema[i] == t;
        SameName(schema, found.value, i);
      }
    }
  }

  /** Main result: a batch succeeds exactly when no mutation in it fails, and then reports the
      changes the mutations ask for; otherwise the first to fail gives the error. */
  lemma {:induction false} BatchAsAsked(s: State, schema: seq<TableInfo>, tooBig: Row -> bool, ms: seq<Mutation>)
    requires ValidSchema(schema)
    ensures var r := ResolveAll(s, schema, tooBig, ms);
            && (r.Ok? ==> Answers(s, schema, ms, r.value))
            && (r.Ok? <==> NoneFails(s, schema, tooBig, ms))
            && (forall e :: r == Err(e) <==> BatchFails(s, schema, tooBig, ms, e))
  {
    hide Resolve, Made, Fails, ValidSchema, BatchFails;
    if ms == [] {
      forall e ensures !BatchFails(s, schema, tooBig, [], e) {
        NothingFails(s, schema, tooBig, e);
      }
    } else {
      var n := |ms| - 1;
      var init, last := ResolveAll(s, schema, tooBig, ms[..n]), Resolve(s, schema, tooBig, ms[n]);
      BatchAsAsked(s, schema, tooBig, ms[..n]);
      ResolveFails(s, schema, tooBig, ms[n]);
      forall e
        ensures BatchFails(s, schema, tooBig, ms, e) <==>
                BatchFails(s, schema, tooBig, ms[..n], e) || (NoneFails(s, schema, tooBig, ms[..n]) && Fails(s, schema, tooBig, ms[n], e))
        ensures NoneFails(s, schema, tooBig, ms[..n]) ==> !BatchFails(s, schema, tooBig, ms[..n], e)
      {
        FirstToFail(s, schema, tooBig, ms, e);
      }
      assert forall j :: 0 <= j < n ==> ms[..n][j] == ms[j];
      assert init.Ok? ==> init.value + [] == init.value;
      if init.Ok? && last.Ok? && last.value.Some? {
        var chs := init.value + [last.value.value];
        assert chs[..|chs| - 1] == init.value;
      }
    }
  }

  lemma NothingFails(s: State, schema: seq<TableInfo>, tooBig: Row -> bool, e: MutateError)
    ensures !BatchFails(s, schema, tooBig, [], e)
  {
  }

  lemma FirstToFail(s: State, schema: seq<TableInfo>, tooBig: Row -> bool, ms: seq<Mutation>, e: MutateError)
    requires ms != []
    ensures var n := |ms| - 1;
            && (BatchFails(s, schema, tooBig, ms, e) <==>
                BatchFails(s, schema, tooBig, ms[..n], e) || (NoneFails(s, schema, tooBig, ms[..n]) && Fails(s, schema, tooBig, ms[n], e)))
            && (NoneFails(s, schema, tooBig, ms[..n]) ==> !BatchFails(s, schema, tooBig, ms[..n], e))
  {
    hide Fails;
    var n := |ms| - 1;
    assert forall j :: 0 <= j < n ==> ms[..n][j] == ms[j];
    if i: nat :| FailsFirst(s, schema, tooBig, ms, i, e) {
      assert i < n ==> FailsFirst(s, schema, tooBig, ms[..n], i, e);
    }
    if i: nat :| FailsFirst(s, schema, tooBig, ms[..n], i, e) {
      assert FailsFirst(s, schema, tooBig, ms, i, e);
    }
    if NoneFails(s, schema, tooBig, ms[..n]) && Fails(s, schema, tooBig, ms[n], e) {
      assert FailsFirst(s, schema, tooBig, ms, n, e);
    }
  }

  // ---------------------------------------------------------------- entries

  /** The entries one change puts into a keyspace: the old key vacated if it moved or the row
      is gone, the new row under its key. */
  function Emit(columns: seq<string>, ch: RowChange): seq<Entry> {
    (if ch.before.Some? && (ch.after.None? || RowKey(columns, ch.before.value) != RowKey(columns, ch.after.value))
     then [Entry(RowKey(columns, ch.before.value), ch.pk, None)] else []) +
    (if ch.after.Some? then [Entry(RowKey(columns, ch.after.value), ch.pk, ch.after)] else [])
  }

  function EmitAll(columns: seq<string>, chs: seq<RowChange>): seq<Entry> {
    if chs == [] then [] else EmitAll(columns, chs[..|chs| - 1]) + Emit(columns, chs[|chs| - 1])
  }

  predicate OfTable(t: TableInfo, ch: RowChange) {
    ch.table == t.name
  }

  function ChangesIn(t: TableInfo, chs: seq<RowChange>): seq<RowChange> {
    Select(chs, ch => OfTable(t, ch))
  }

  /** Names are distinct, so every keyspace belongs to one index of one table. */
  ghost predicate ValidSchema(schema: seq<TableInfo>) {
    && (forall i :: 0 <= i < |schema| ==> WellFormed(schema[i]))
    && (forall i, j :: 0 <= i < j < |schema| ==> schema[i].name != schema[j].name)
  }

  method Push(batch: Batch, id: KeyspaceId, e: Entry) returns (r: Batch)
    ensures forall x :: Pending(r, x) == if x == id then Pending(batch, id) + [e] else Pending(batch, x)
  {
    r := batch[id := Pending(batch, id) + [e]];
  }

  lemma CandidatesDistinct(t: TableInfo)
    requires WellFormed(t)
    ensures forall i, j :: 0 <= i < |Candidates(t)| && 0 <= j < |Candidates(t)| && i != j
                           ==> Candidates(t)[i].id != Candidates(t)[j].id
  {
  }

  /** One keyspace's entries of a change. */
  method EmitTo(batch: Batch, id: KeyspaceId, columns: seq<string>, ch: RowChange) returns (r: Batch)
    ensures Pending(r, id) == Pending(batch, id) + Emit(columns, ch)
    ensures forall x :: x != id ==> Pending(r, x) == Pending(batch, x)
  {
    hide RowKey;
    r := batch;
    if ch.before.Some? {
      var oldKey := RowKey(columns, ch.before.value);
      if ch.after.None? || RowKey(columns, ch.after.value) != oldKey {
        r := Push(r, id, Entry(oldKey, ch.pk, None));
      }
    }
    if ch.after.Some? {
      r := Push(r, id, Entry(RowKey(columns, ch.after.value), ch.pk, ch.after));
    }
  }

  /** `wider` adds the entries of a change to the keyspaces of the table and no others. */
  ghost predicate Adds(batch: Batch, wider: Batch, t: TableInfo, ch: RowChange) {
    && (forall i :: 0 <= i < |Candidates(t)| ==>
          Pending(wider, KeyspaceId(t.name, Candidates(t)[i].id))
          == Pending(batch, KeyspaceId(t.name, Candidates(t)[i].id)) + Emit(Candidates(t)[i].columns, ch))
    && (forall id: KeyspaceId :: id.table != t.name ==> Pending(wider, id) == Pending(batch, id))
  }

  /** Write a row transition into every keyspace of the table. */
  method EmitWrite(batch: Batch, t: TableInfo, ch: RowChange) returns (r: Batch)
    requires WellFormed(t)
    ensures Adds(batch, r, t, ch)
  {
    hide Emit, Pending;
    var cs := Candidates(t);
    CandidatesDistinct(t);
    r := batch;
    for k := 0 to |cs|
      invariant forall i :: 0 <= i < k ==>
                  Pending(r, KeyspaceId(t.name, cs[i].id)) == Pending(batch, KeyspaceId(t.name, cs[i].id)) + Emit(cs[i].columns, ch)
      invariant forall i :: k <= i < |cs| ==>
                  Pending(r, KeyspaceId(t.name, cs[i].id)) == Pending(batch, KeyspaceId(t.name, cs[i].id))
      invariant forall id: KeyspaceId :: id.table != t.name ==> Pending(r, id) == Pending(batch, id)
    {
      r := EmitTo(r, KeyspaceId(t.name, cs[k].id), cs[k].columns, ch);
    }
  }

  class Engine {
    const schema: seq<TableInfo>
    /** Whether a row's JSON exceeds the per-row limit. */
    const tooBig: Row -> bool
    var state: State

    constructor (schema: seq<TableInfo>, tooBig: Row -> bool)
      ensures this.schema == schema && this.tooBig == tooBig && state == State(map[], 0)
    {
      this.schema := schema;
      this.tooBig := tooBig;
      state := State(map[], 0);
    }

    /** A failed batch changes nothing; a successful one reports the changes read against the
        committed store and writes exactly their entries, raising the LSN once if any. */
    method Mutate(mutations: seq<Mutation>) returns (r: Result<(nat, seq<RowChange>), MutateError>)
      requires ValidSchema(schema)
      modifies this
      ensures |mutations| > MAX_BATCH_MUTATIONS ==> r == Err(BatchTooLarge)
      ensures |mutations| <= MAX_BATCH_MUTATIONS ==>
                match ResolveAll(old(state), schema, tooBig, mutations)
                case Err(e) => r == Err(e)
                case Ok(chs) => r == Ok((state.lsn, chs)) && Committed(old(state), schema, chs, state)
      ensures r.Err? ==> state == old(state)
      ensures r.Ok? ==> Answers(old(state), schema, mutations, r.value.1)
      ensures |mutations| <= MAX_BATCH_MUTATIONS ==> forall e :: r == Err(e) <==> BatchFails(old(state), schema, tooBig, mutations, e)
    {
      hide Answers, BatchFails, Resolve, ResolveAll, Writes, Adds, Committed, Commit, Emit;
      if |mutations| > MAX_BATCH_MUTATIONS {
        return Err(BatchTooLarge);
      }
      BatchAsAsked(state, schema, tooBig, mutations);
      var batch: Batch := map[];
      var changes: seq<RowChange> := [];
      NothingResolved(state, schema, tooBig, mutations);
      for i := 0 to |mutations|
        invariant ResolveAll(state, schema, tooBig, mutations[..i]) == Ok(changes)
        invariant state == old(state)
        invariant Writes(batch, schema, changes)
      {
        var ch := ResolveMutation(state, schema, tooBig, mutations[i]);
        ResolveStep(state, schema, tooBig, mutations, i);
        if ch.Err? {
          FailsEarly(state, schema, tooBig, mutations, i);
          return Err(ch.error);
        }
        if ch.value.Some? {
          ResolvedChange(state, schema, tooBig, mutations[i]);
          var t := FindTable(schema, mutations[i].table).value;
          var k :| 0 <= k < |schema| && schema[k] == t;
          var wider := EmitWrite(batch, t, ch.value.value);
          WritesGrow(batch, wider, schema, changes, t, ch.value.value);
          batch := wider;
          changes := changes + [ch.value.value];
        }
      }
      assert mutations[..|mutations|] == mutations;
      CommitWrites(state, batch, schema, changes);
      state := Commit(state, batch);
      r := Ok((state.lsn, changes));
    }
  }

  lemma NothingResolved(s: State, schema: seq<TableInfo>, tooBig: Row -> bool, ms: seq<Mutation>)
    ensures ResolveAll(s, schema, tooBig, ms[..0]) == Ok([])
    ensures Writes(map[], schema, [])
  {
  }

  lemma ResolveStep(s: State, schema: seq<TableInfo>, tooBig: Row -> bool, ms: seq<Mutation>, i: nat)
    requires i < |ms| && ResolveAll(s, schema, tooBig, ms[..i]).Ok?
    ensures var ch := Resolve(s, schema, tooBig, ms[i]);
            ch.Ok? ==> ResolveAll(s, schema, tooBig, ms[..i + 1]) ==
                       if ch.value.None? then ResolveAll(s, schema, tooBig, ms[..i])
                       else Ok(ResolveAll(s, schema, tooBig, ms[..i]).value + [ch.value.value])
  {
    hide Resolve;
    assert ms[..i + 1][..i] == ms[..i];
    var chs := ResolveAll(s, schema, tooBig, ms[..i]).value;
    assert chs + [] == chs;
  }

  /** A resolved change belongs to its table, holds the committed row, and keeps the key. */
  lemma ResolvedChange(s: State, schema: seq<TableInfo>, tooBig: Row -> bool, m: Mutation)
    requires var r := Resolve(s, schema, tooBig, m); r.Ok? && r.value.Some?
    ensures FindTable(schema, m.table).Some?
    ensures var t, ch := FindTable(schema, m.table).value, Resolve(s, schema, tooBig, m).value.value;
            ch.table == t.name && TrueChange(s, t, ch)
  {
  }

  /** The change states the committed row as its before and keeps the primary key. */
  ghost predicate TrueChange(s: State, t: TableInfo, ch: RowChange) {
    && ch.before == GetRaw(s, t, ch.pk)
    && (ch.after.Some? ==> Get(ch.after.value, t.pk) == ch.pk)
    && (ch.before.Some? || ch.after.Some?)
  }

  /** The batch holds exactly the entries of the changes, keyspace by keyspace. */
  ghost predicate Writes(batch: Batch, schema: seq<TableInfo>, chs: seq<RowChange>) {
    && (forall k, i :: 0 <= k < |schema| && 0 <= i < |Candidates(schema[k])| ==>
          Pending(batch, KeyspaceId(schema[k].name, Candidates(schema[k])[i].id))
          == EmitAll(Candidates(schema[k])[i].columns, ChangesIn(schema[k], chs)))
    && (EmptyBatch(batch) <==> chs == [])
  }

  /** What a commit of the changes does to every keyspace and to the LSN. */
  ghost predicate Committed(s: State, schema: seq<TableInfo>, chs: seq<RowChange>, s': State) {
    && s'.lsn == s.lsn + (if chs == [] then 0 else 1)
    && forall k, i :: 0 <= k < |schema| && 0 <= i < |Candidates(schema[k])| ==>
         var id, columns := KeyspaceId(schema[k].name, Candidates(schema[k])[i].id), Candidates(schema[k])[i].columns;
         KeyspaceOf(s', id) == ApplyEntries(KeyspaceOf(s, id), EmitAll(columns, ChangesIn(schema[k], chs)))
  }

  lemma {:induction false} FailsEarly(s: State, schema: seq<TableInfo>, tooBig: Row -> bool, ms: seq<Mutation>, i: nat)
    requires i < |ms| && ResolveAll(s, schema, tooBig, ms[..i]).Ok? && Resolve(s, schema, tooBig, ms[i]).Err?
    ensures ResolveAll(s, schema, tooBig, ms) == Err(Resolve(s, schema, tooBig, ms[i]).error)
  {
    hide Resolve;
    var n := |ms| - 1;
    if i == n {
    } else {
      assert ms[..n][..i] == ms[..i];
      FailsEarly(s, schema, tooBig, ms[..n], i);
    }
  }

  lemma WritesGrow(batch: Batch, wider: Batch, schema: seq<TableInfo>, chs: seq<RowChange>, t: TableInfo, ch: RowChange)
    requires ValidSchema(schema) && Writes(batch, schema, chs) && t in schema && ch.table == t.name
    requires ch.before.Some? || ch.after.Some?
    requires Adds(batch, wider, t, ch)
    ensures Writes(wider, schema, chs + [ch])
  {
    hide Emit, ChangesIn, EmitAll;
    forall k, i | 0 <= k < |schema| && 0 <= i < |Candidates(schema[k])|
      ensures Pending(wider, KeyspaceId(schema[k].name, Candidates(schema[k])[i].id))
              == EmitAll(Candidates(schema[k])[i].columns, ChangesIn(schema[k], chs + [ch]))
    {
      var columns := Candidates(schema[k])[i].columns;
      ChangesGrow(schema[k], chs, ch);
      EmitGrows(columns, ChangesIn(schema[k], chs), ch);
      if schema[k].name == t.name {
        SameName(schema, t, k);
      }
    }
    EmitsSomething(Candidates(t)[0].columns, ch);
    assert Pending(wider, KeyspaceId(t.name, Candidates(t)[0].id)) != [];
  }

  lemma EmitGrows(columns: seq<string>, chs: seq<RowChange>, ch: RowChange)
    ensures EmitAll(columns, chs + [ch]) == EmitAll(columns, chs) + Emit(columns, ch)
    ensures EmitAll(columns, chs + []) == EmitAll(columns, chs)
  {
    assert (chs + [ch])[..|chs|] == chs && chs + [] == chs;
  }

  lemma EmitsSomething(columns: seq<string>, ch: RowChange)
    requires ch.before.Some? || ch.after.Some?
    ensures Emit(columns, ch) != []
  {
  }

  lemma SameName(schema: seq<TableInfo>, t: TableInfo, k: nat)
    requires ValidSchema(schema) && t in schema && k < |schema| && schema[k].name == t.name
    ensures schema[k] == t
  {
    var j :| 0 <= j < |schema| && schema[j] == t;
    assert !(j < k) && !(k < j);
  }

  lemma ChangesGrow(t: TableInfo, chs: seq<RowChange>, ch: RowChange)
    ensures ChangesIn(t, chs + [ch]) == ChangesIn(t, chs) + (if OfTable(t, ch) then [ch] else [])
  {
    SelectAppend(chs, [ch], ch => OfTable(t, ch));
  }

  lemma CommitWrites(s: State, batch: Batch, schema: seq<TableInfo>, chs: seq<RowChange>)
    requires Writes(batch, schema, chs)
    ensures Committed(s, schema, chs, Commit(s, batch))
  {
    forall k, i | 0 <= k < |schema| && 0 <= i < |Candidates(schema[k])|
      ensures var id, columns := KeyspaceId(schema[k].name, Candidates(schema[k])[i].id), Candidates(schema[k])[i].columns;
              KeyspaceOf(Commit(s, batch), id) == ApplyEntries(KeyspaceOf(s, id), EmitAll(columns, ChangesIn(schema[k], chs)))
    {
      CommitKeyspace(s, batch, KeyspaceId(schema[k].name, Candidates(schema[k])[i].id));
    }
  }

  // ---------------------------------------------------------------- keyspaces stay in step

  /** The change puts a row under the key or vacates it. */
  predicate Touches(columns: seq<string>, ch: RowChange, key: Bytes) {
    (ch.after.Some? && RowKey(columns, ch.after.value) == key) ||
    (ch.before.Some? && RowKey(columns, ch.before.value) == key)
  }

  /** What a change that touches a key leaves there. */
  function Left(columns: seq<string>, ch: RowChange, key: Bytes): Option<Live> {
    if ch.after.Some? && RowKey(columns, ch.after.value) == key then Some(Live(ch.pk, ch.after.value)) else None
  }

  lemma {:induction false} ApplyAppend(ks: Keyspace, a: seq<Entry>, b: seq<Entry>)
    ensures ApplyEntries(ks, a + b) == ApplyEntries(ApplyEntries(ks, a), b)
    decreases |a|
  {
    if a == [] {
      assert a + b == b;
    } else {
      ApplyAppend(ApplyEntry(ks, a[0]), a[1..], b);
      assert (a + b)[1..] == a[1..] + b;
    }
  }

  lemma EmitLeaves(ks: Keyspace, columns: seq<string>, ch: RowChange, key: Bytes)
    ensures Found(ApplyEntries(ks, Emit(columns, ch)), key) ==
            if Touches(columns, ch, key) then Left(columns, ch, key) else Found(ks, key)
  {
    hide RowKey;
    var es := Emit(columns, ch);
    if |es| == 2 {
      assert es == [es[0]] + [es[1]];
      ApplyAppend(ks, [es[0]], [es[1]]);
    }
  }

  /** The last change touching a key decides what the batch leaves there. */
  ghost predicate LastTouch(columns: seq<string>, chs: seq<RowChange>, key: Bytes, i: nat) {
    i < |chs| && Touches(columns, chs[i], key) && forall j :: i < j < |chs| ==> !Touches(columns, chs[j], key)
  }

  ghost predicate Untouched(columns: seq<string>, chs: seq<RowChange>, key: Bytes) {
    forall i :: 0 <= i < |chs| ==> !Touches(columns, chs[i], key)
  }

  lemma BatchStep(ks: Keyspace, columns: seq<string>, chs: seq<RowChange>, key: Bytes)
    requires chs != []
    ensures var n := |chs| - 1;
            Found(ApplyEntries(ks, EmitAll(columns, chs)), key) ==
            if Touches(columns, chs[n], key) then Left(columns, chs[n], key)
            else Found(ApplyEntries(ks, EmitAll(columns, chs[..n])), key)
  {
    hide Touches, Left, Emit, ApplyEntries, Found;
    var n := |chs| - 1;
    ApplyAppend(ks, EmitAll(columns, chs[..n]), Emit(columns, chs[n]));
    EmitLeaves(ApplyEntries(ks, EmitAll(columns, chs[..n])), columns, chs[n], key);
  }

  lemma {:induction false} UntouchedStays(ks: Keyspace, columns: seq<string>, chs: seq<RowChange>, key: Bytes)
    requires Untouched(columns, chs, key)
    ensures Found(ApplyEntries(ks, EmitAll(columns, chs)), key) == Found(ks, key)
  {
    hide Touches, Left, Found;
    if chs == [] {
    } else {
      BatchStep(ks, columns, chs, key);
      UntouchedStays(ks, columns, chs[..|chs| - 1], key);
    }
  }

  lemma {:induction false} LastTouchDecides(ks: Keyspace, columns: seq<string>, chs: seq<RowChange>, key: Bytes, i: nat)
    requires LastTouch(columns, chs, key, i)
    ensures Found(ApplyEntries(ks, EmitAll(columns, chs)), key) == Left(columns, chs[i], key)
  {
    hide Touches, Left, Found, EmitAll, ApplyEntries;
    BatchStep(ks, columns, chs, key);
    if i == |chs| - 1 {
    } else {
      LastTouchDecides(ks, columns, chs[..|chs| - 1], key, i);
    }
  }

  lemma {:induction false} LastTouchExists(columns: seq<string>, chs: seq<RowChange>, key: Bytes, i: nat) returns (m: nat)
    requires i < |chs| && Touches(columns, chs[i], key)
    ensures i <= m && LastTouch(columns, chs, key, m)
    decreases |chs| - i
  {
    hide Touches;
    if j :| i < j < |chs| && Touches(columns, chs[j], key) {
      m := LastTouchExists(columns, chs, key, j);
    } else {
      m := i;
    }
  }

  /** Rows of one key have one primary key, for columns that include it. */
  lemma KeyTellsPk(columns: seq<string>, pk: string, a: Row, b: Row)
    requires pk in columns && RowKey(columns, a) == RowKey(columns, b)
    ensures Get(a, pk) == Get(b, pk)
  {
    KeyInjective(TupleOf(columns, a), TupleOf(columns, b));
    var i :| 0 <= i < |columns| && columns[i] == pk;
    assert TupleOf(columns, a)[i] == TupleOf(columns, b)[i];
  }

  /** Change `n` is the last one of its row in the batch. */
  ghost predicate LastOfRow(chs: seq<RowChange>, n: nat) {
    n < |chs| && forall k :: n < k < |chs| ==> chs[k].pk != chs[n].pk
  }

  /** No earlier write of a row leaves an index key that is neither the committed row's nor
      the last write's. */
  ghost predicate NoStrayKey(columns: seq<string>, chs: seq<RowChange>) {
    forall i, n :: 0 <= i < n < |chs| && chs[i].pk == chs[n].pk && LastOfRow(chs, n) && chs[i].after.Some? ==>
      (chs[i].before.Some? && RowKey(columns, chs[i].after.value) == RowKey(columns, chs[i].before.value)) ||
      (chs[n].after.Some? && RowKey(columns, chs[i].after.value) == RowKey(columns, chs[n].after.value))
  }

  ghost predicate TrueChanges(s: State, t: TableInfo, chs: seq<RowChange>) {
    forall i :: 0 <= i < |chs| ==> TrueChange(s, t, chs[i])
  }

  lemma {:induction false} LastOfRowExists(chs: seq<RowChange>, i: nat) returns (n: nat)
    requires i < |chs|
    ensures i <= n && LastOfRow(chs, n) && chs[n].pk == chs[i].pk
    decreases |chs| - i
  {
    if j :| i < j < |chs| && chs[j].pk == chs[i].pk {
      n := LastOfRowExists(chs, j);
    } else {
      n := i;
    }
  }

  /** The keyspace of `columns` after the batch. */
  ghost function After(ks: Keyspace, columns: seq<string>, chs: seq<RowChange>): Keyspace {
    ApplyEntries(ks, EmitAll(columns, chs))
  }

  /** A true change touches its own primary key and no other. */
  lemma ChangeTouchesPrimary(s: State, t: TableInfo, ch: RowChange)
    requires Consistent(s, t) && TrueChange(s, t, ch)
    ensures forall key :: Touches([t.pk], ch, key) <==> key == EncodeKey([ch.pk])
    ensures ch.before.Some? ==> Get(ch.before.value, t.pk) == ch.pk
  {
    assert InStep(s, t, Candidates(t)[0]);
    if ch.before.Some? {
      assert Primary(s, t)[EncodeKey([ch.pk])].row == ch.before.value;
      KeyInjective([ch.pk], TupleOf([t.pk], ch.before.value));
      assert TupleOf([t.pk], ch.before.value)[0] == ch.pk;
      assert TupleOf([t.pk], ch.before.value) == [ch.pk];
    }
    if ch.after.Some? {
      assert TupleOf([t.pk], ch.after.value) == [ch.pk];
    }
  }

  lemma OthersLeaveKey(s: State, t: TableInfo, ch: RowChange, pk: Scalar)
    requires Consistent(s, t) && TrueChange(s, t, ch)
    ensures Touches([t.pk], ch, EncodeKey([pk])) <==> ch.pk == pk
  {
    hide Touches, Consistent, TrueChange, EncodeKey;
    ChangeTouchesPrimary(s, t, ch);
    if EncodeKey([pk]) == EncodeKey([ch.pk]) {
      KeyInjective([pk], [ch.pk]);
      assert [pk][0] == [ch.pk][0];
    }
  }

  /** In the primary keyspace the last change of a row decides it. */
  lemma PrimaryAfter(s: State, t: TableInfo, chs: seq<RowChange>, n: nat)
    requires Consistent(s, t) && TrueChanges(s, t, chs) && LastOfRow(chs, n)
    ensures Found(After(Primary(s, t), [t.pk], chs), EncodeKey([chs[n].pk])) ==
            if chs[n].after.Some? then Some(Live(chs[n].pk, chs[n].after.value)) else None
  {
    hide Touches, Consistent, TrueChange, EncodeKey, EmitAll, ApplyEntries, Found;
    var key := EncodeKey([chs[n].pk]);
    forall j | n <= j < |chs| ensures Touches([t.pk], chs[j], key) <==> j == n {
      assert TrueChange(s, t, chs[j]);
      OthersLeaveKey(s, t, chs[j], chs[n].pk);
    }
    LastTouchDecides(Primary(s, t), [t.pk], chs, key, n);
    LeftInPrimary(s, t, chs[n]);
  }

  lemma LeftInPrimary(s: State, t: TableInfo, ch: RowChange)
    requires Consistent(s, t) && TrueChange(s, t, ch)
    ensures Left([t.pk], ch, EncodeKey([ch.pk])) ==
            if ch.after.Some? then Some(Live(ch.pk, ch.after.value)) else None
  {
    if ch.after.Some? {
      assert TupleOf([t.pk], ch.after.value) == [ch.pk];
    }
  }

  lemma PrimaryUntouched(s: State, t: TableInfo, chs: seq<RowChange>, pk: Scalar)
    requires Consistent(s, t) && TrueChanges(s, t, chs)
    requires forall i :: 0 <= i < |chs| ==> chs[i].pk != pk
    ensures Found(After(Primary(s, t), [t.pk], chs), EncodeKey([pk])) == Found(Primary(s, t), EncodeKey([pk]))
  {
    hide Touches, Consistent, TrueChange, EncodeKey, EmitAll, ApplyEntries, Found;
    forall j | 0 <= j < |chs| ensures !Touches([t.pk], chs[j], EncodeKey([pk])) {
      assert TrueChange(s, t, chs[j]);
      OthersLeaveKey(s, t, chs[j], pk);
    }
    UntouchedStays(Primary(s, t), [t.pk], chs, EncodeKey([pk]));
  }

  /** A change touching the index key of a row is a change of that row. */
  lemma TouchTellsPk(s: State, t: TableInfo, columns: seq<string>, ch: RowChange, row: Row)
    requires Consistent(s, t) && TrueChange(s, t, ch) && t.pk in columns
    requires Touches(columns, ch, RowKey(columns, row))
    ensures ch.pk == Get(row, t.pk)
  {
    hide RowKey, Consistent;
    ChangeTouchesPrimary(s, t, ch);
    if ch.after.Some? && RowKey(columns, ch.after.value) == RowKey(columns, row) {
      KeyTellsPk(columns, t.pk, ch.after.value, row);
    } else {
      KeyTellsPk(columns, t.pk, ch.before.value, row);
    }
  }

  /** A committed row's key is touched by every change of the row. */
  lemma RowTouched(s: State, t: TableInfo, columns: seq<string>, ch: RowChange, k: Bytes)
    requires Consistent(s, t) && TrueChange(s, t, ch)
    requires k in Primary(s, t) && ch.pk == Get(Primary(s, t)[k].row, t.pk)
    ensures ch.before == Some(Primary(s, t)[k].row)
    ensures Touches(columns, ch, RowKey(columns, Primary(s, t)[k].row))
  {
    assert InStep(s, t, Candidates(t)[0]);
    assert TupleOf([t.pk], Primary(s, t)[k].row) == [ch.pk];
  }

  ghost predicate Setting(s: State, t: TableInfo, c: Candidate, chs: seq<RowChange>) {
    Consistent(s, t) && InStep(s, t, c) && t.pk in c.columns && TrueChanges(s, t, chs)
  }

  ghost function IndexAfter(s: State, t: TableInfo, c: Candidate, chs: seq<RowChange>): Keyspace {
    After(KeyspaceOf(s, KeyspaceId(t.name, c.id)), c.columns, chs)
  }

  ghost predicate Holds(ks: Keyspace, key: Bytes, l: Live) {
    key in ks && ks[key] == l
  }

  /** An entry the batch leaves in an index is the row the batch leaves in the primary. */
  lemma IndexEntryIsRow(s: State, t: TableInfo, c: Candidate, chs: seq<RowChange>, key: Bytes)
    requires Setting(s, t, c, chs) && NoStrayKey(c.columns, chs)
    requires key in IndexAfter(s, t, c, chs)
    ensures var l := IndexAfter(s, t, c, chs)[key];
            && key == RowKey(c.columns, l.row) && l.pk == Get(l.row, t.pk)
            && Holds(After(Primary(s, t), [t.pk], chs), RowKey([t.pk], l.row), l)
  {
    hide EncodeKey, EmitAll, ApplyEntries, RowKey;
    var ks := KeyspaceOf(s, KeyspaceId(t.name, c.id));
    var l := IndexAfter(s, t, c, chs)[key];
    if i :| 0 <= i < |chs| && Touches(c.columns, chs[i], key) {
      var m := LastTouchExists(c.columns, chs, key, i);
      LastTouchDecides(ks, c.columns, chs, key, m);
      var n := LastOfRowExists(chs, m);
      assert TrueChange(s, t, chs[m]) && TrueChange(s, t, chs[n]);
      assert n == m;
      PrimaryAfter(s, t, chs, n);
      PkKey(t.pk, l.row);
    } else {
      UntouchedStays(ks, c.columns, chs, key);
      assert Holds(ks, key, l);
      var k := RowKey([t.pk], l.row);
      PkKey(t.pk, l.row);
      forall j | 0 <= j < |chs| ensures chs[j].pk != l.pk {
        assert TrueChange(s, t, chs[j]);
        if chs[j].pk == l.pk {
          RowTouched(s, t, c.columns, chs[j], k);
        }
      }
      PrimaryUntouched(s, t, chs, l.pk);
    }
  }

  lemma PkKey(pk: string, row: Row)
    ensures RowKey([pk], row) == EncodeKey([Get(row, pk)])
  {
    assert TupleOf([pk], row) == [Get(row, pk)];
  }

  /** A row the batch leaves in the primary has its entry in the index. */
  lemma RowHasEntry(s: State, t: TableInfo, c: Candidate, chs: seq<RowChange>, k: Bytes)
    requires Setting(s, t, c, chs)
    requires k in After(Primary(s, t), [t.pk], chs)
    ensures var l := After(Primary(s, t), [t.pk], chs)[k];
            Holds(IndexAfter(s, t, c, chs), RowKey(c.columns, l.row), l)
  {
    hide EncodeKey, EmitAll, ApplyEntries, RowKey;
    var p, ks := Primary(s, t), KeyspaceOf(s, KeyspaceId(t.name, c.id));
    var l := After(p, [t.pk], chs)[k];
    var key := RowKey(c.columns, l.row);
    assert InStep(s, t, Candidates(t)[0]);
    if i :| 0 <= i < |chs| && Touches([t.pk], chs[i], k) {
      var m := LastTouchExists([t.pk], chs, k, i);
      LastTouchDecides(p, [t.pk], chs, k, m);
      assert TrueChange(s, t, chs[m]);
      ChangeTouchesPrimary(s, t, chs[m]);
      var n := LastTouchExists(c.columns, chs, key, m);
      LastTouchDecides(ks, c.columns, chs, key, n);
      assert TrueChange(s, t, chs[n]);
      TouchTellsPk(s, t, c.columns, chs[n], l.row);
      OthersLeaveKey(s, t, chs[n], chs[m].pk);
      assert n == m;
    } else {
      UntouchedStays(p, [t.pk], chs, k);
      assert Holds(p, k, l);
      PkKey(t.pk, l.row);
      forall j | 0 <= j < |chs| ensures !Touches(c.columns, chs[j], key) {
        assert TrueChange(s, t, chs[j]);
        if Touches(c.columns, chs[j], key) {
          TouchTellsPk(s, t, c.columns, chs[j], l.row);
          OthersLeaveKey(s, t, chs[j], l.pk);
        }
      }
      UntouchedStays(ks, c.columns, chs, key);
    }
  }

  /** With a stray key, the index keeps an entry the primary does not have. */
  lemma StrayBreaks(s: State, t: TableInfo, c: Candidate, chs: seq<RowChange>)
    requires Setting(s, t, c, chs) && !NoStrayKey(c.columns, chs)
    ensures !Rekeys(IndexAfter(s, t, c, chs), After(Primary(s, t), [t.pk], chs), t.pk, c.columns)
  {
    hide EncodeKey, EmitAll, ApplyEntries, RowKey;
    var i, n :| 0 <= i < n < |chs| && chs[i].pk == chs[n].pk && LastOfRow(chs, n) && chs[i].after.Some? &&
      !(chs[i].before.Some? && RowKey(c.columns, chs[i].after.value) == RowKey(c.columns, chs[i].before.value)) &&
      !(chs[n].after.Some? && RowKey(c.columns, chs[i].after.value) == RowKey(c.columns, chs[n].after.value));
    var key := RowKey(c.columns, chs[i].after.value);
    var m := LastTouchExists(c.columns, chs, key, i);
    assert TrueChange(s, t, chs[i]) && TrueChange(s, t, chs[m]) && TrueChange(s, t, chs[n]);
    TouchTellsPk(s, t, c.columns, chs[m], chs[i].after.value);
    LastTouchDecides(KeyspaceOf(s, KeyspaceId(t.name, c.id)), c.columns, chs, key, m);
    PrimaryAfter(s, t, chs, n);
    PkKey(t.pk, chs[m].after.value);
  }

  /** Main result: after a batch of true changes an index is in step exactly when no earlier
      write of a row leaves a stray key; in particular when the primary keys are distinct. */
  lemma InStepExactly(s: State, t: TableInfo, c: Candidate, chs: seq<RowChange>)
    requires Setting(s, t, c, chs)
    ensures Rekeys(IndexAfter(s, t, c, chs), After(Primary(s, t), [t.pk], chs), t.pk, c.columns)
            <==> NoStrayKey(c.columns, chs)
  {
    hide EncodeKey, After, RowKey, IndexAfter;
    if NoStrayKey(c.columns, chs) {
      forall key | key in IndexAfter(s, t, c, chs)
        ensures var l := IndexAfter(s, t, c, chs)[key];
                && key == RowKey(c.columns, l.row) && l.pk == Get(l.row, t.pk)
                && Holds(After(Primary(s, t), [t.pk], chs), RowKey([t.pk], l.row), l)
      {
        IndexEntryIsRow(s, t, c, chs, key);
      }
      forall k | k in After(Primary(s, t), [t.pk], chs)
        ensures var l := After(Primary(s, t), [t.pk], chs)[k];
                Holds(IndexAfter(s, t, c, chs), RowKey(c.columns, l.row), l)
      {
        RowHasEntry(s, t, c, chs, k);
      }
    } else {
      StrayBreaks(s, t, c, chs);
    }
  }

  // ---------------------------------------------------------------- whole batches

  ghost predicate DistinctPks(chs: seq<RowChange>) {
    forall i, j :: 0 <= i < j < |chs| ==> chs[i].pk != chs[j].pk
  }

  /** Every change of a resolved batch is true of the committed store and passed the
      uniqueness checks of its table. */
  lemma {:induction false} ResolvedChanges(s: State, schema: seq<TableInfo>, tooBig: Row -> bool, ms: seq<Mutation>, t: TableInfo)
    requires ValidSchema(schema) && t in schema && ResolveAll(s, schema, tooBig, ms).Ok?
    ensures var chs := ChangesIn(t, ResolveAll(s, schema, tooBig, ms).value);
            TrueChanges(s, t, chs) && AllPassUnique(s, t, chs)
  {
    hide Resolve, TrueChange, Passed;
    if ms == [] {
    } else {
      var n := |ms| - 1;
      ResolvedChanges(s, schema, tooBig, ms[..n], t);
      var init := ResolveAll(s, schema, tooBig, ms[..n]).value;
      var last := Resolve(s, schema, tooBig, ms[n]).value;
      if last.Some? {
        ResolvedChange(s, schema, tooBig, ms[n]);
        ResolvedPasses(s, schema, tooBig, ms[n]);
        ChangesGrow(t, init, last.value);
        var u := FindTable(schema, ms[n].table).value;
        if OfTable(t, last.value) {
          var k :| 0 <= k < |schema| && schema[k] == t;
          SameName(schema, u, k);
        }
      } else {
        assert init + [] == init;
      }
    }
  }

  ghost predicate Passed(s: State, t: TableInfo, ch: RowChange) {
    ch.after.Some? ==> forall i :: 0 <= i < |t.indexes| ==> PassesUnique(s, t, t.indexes[i], ch.before, ch.after.value)
  }

  ghost predicate AllPassUnique(s: State, t: TableInfo, chs: seq<RowChange>) {
    forall i :: 0 <= i < |chs| ==> Passed(s, t, chs[i])
  }

  lemma ResolvedPasses(s: State, schema: seq<TableInfo>, tooBig: Row -> bool, m: Mutation)
    requires var r := Resolve(s, schema, tooBig, m); r.Ok? && r.value.Some?
    ensures FindTable(schema, m.table).Some?
    ensures Passed(s, FindTable(schema, m.table).value, Resolve(s, schema, tooBig, m).value.value)
  {
    hide PassesUnique, NormalizeInsert, Patched, GetRaw, FirstViolation;
  }

  /** After a committed batch the table is consistent exactly when no index is left with a
      stray key. */
  lemma ConsistentExactly(s: State, schema: seq<TableInfo>, chs: seq<RowChange>, s': State, t: TableInfo)
    requires ValidSchema(schema) && t in schema && Committed(s, schema, chs, s')
    requires Consistent(s, t) && TrueChanges(s, t, ChangesIn(t, chs))
    ensures Consistent(s', t) <==>
            forall i :: 0 <= i < |Candidates(t)| ==> NoStrayKey(Candidates(t)[i].columns, ChangesIn(t, chs))
  {
    hide NoStrayKey, Rekeys, EmitAll, ApplyEntries, ChangesIn;
    var k :| 0 <= k < |schema| && schema[k] == t;
    assert WellFormed(t);
    var mine := ChangesIn(t, chs);
    forall i | 0 <= i < |Candidates(t)|
      ensures InStep(s', t, Candidates(t)[i]) <==> NoStrayKey(Candidates(t)[i].columns, mine)
    {
      var c := Candidates(t)[i];
      assert InStep(s, t, c);
      assert t.pk in c.columns;
      InStepExactly(s, t, c, mine);
      assert KeyspaceOf(s', KeyspaceId(schema[k].name, Candidates(schema[k])[i].id)) == IndexAfter(s, t, c, mine);
      assert KeyspaceOf(s', KeyspaceId(schema[k].name, Candidates(schema[k])[0].id)) == After(Primary(s, t), [t.pk], mine);
    }
  }

  /** Main result: a successful mutation over distinct primary keys keeps every index of the
      table equal to its primary keyspace re-keyed. */
  lemma MutateKeepsInStep(s: State, schema: seq<TableInfo>, tooBig: Row -> bool, ms: seq<Mutation>, s': State, t: TableInfo)
    requires ValidSchema(schema) && t in schema && Consistent(s, t)
    requires var r := ResolveAll(s, schema, tooBig, ms);
             r.Ok? && Committed(s, schema, r.value, s') && DistinctPks(ChangesIn(t, r.value))
    ensures Consistent(s', t)
  {
    hide ResolveAll, Committed;
    var chs := ResolveAll(s, schema, tooBig, ms).value;
    ResolvedChanges(s, schema, tooBig, ms, t);
    ConsistentExactly(s, schema, chs, s', t);
  }

  /** What point reads see after the batch: the last change of the row, or the old row. */
  lemma RawAfter(s: State, schema: seq<TableInfo>, chs: seq<RowChange>, s': State, t: TableInfo, pk: Scalar)
    requires ValidSchema(schema) && t in schema && Committed(s, schema, chs, s')
    requires Consistent(s, t) && TrueChanges(s, t, ChangesIn(t, chs))
    ensures (forall i :: 0 <= i < |ChangesIn(t, chs)| ==> ChangesIn(t, chs)[i].pk != pk) ==> GetRaw(s', t, pk) == GetRaw(s, t, pk)
    ensures forall n: nat :: LastOfRow(ChangesIn(t, chs), n) && ChangesIn(t, chs)[n].pk == pk ==> GetRaw(s', t, pk) == ChangesIn(t, chs)[n].after
  {
    hide EmitAll, ApplyEntries, ChangesIn, EncodeKey, TrueChange, Consistent;
    var k :| 0 <= k < |schema| && schema[k] == t;
    var mine := ChangesIn(t, chs);
    assert KeyspaceOf(s', KeyspaceId(schema[k].name, Candidates(schema[k])[0].id)) == After(Primary(s, t), [t.pk], mine);
    if forall i :: 0 <= i < |mine| ==> mine[i].pk != pk {
      PrimaryUntouched(s, t, mine, pk);
    }
    forall n: nat | LastOfRow(mine, n) && mine[n].pk == pk ensures GetRaw(s', t, pk) == mine[n].after {
      PrimaryAfter(s, t, mine, n);
    }
  }

  /** Only the key of the mutation is written. */
  ghost predicate OthersKept(s: State, s': State, t: TableInfo, pk: Scalar) {
    forall other :: other != pk ==> GetRaw(s', t, other) == GetRaw(s, t, other)
  }

  /** What a batch of one change leaves at its key and elsewhere. */
  lemma OneChangeLeaves(s: State, schema: seq<TableInfo>, ch: RowChange, s': State, t: TableInfo)
    requires ValidSchema(schema) && t in schema && Consistent(s, t) && Committed(s, schema, [ch], s')
    requires ch.table == t.name && TrueChange(s, t, ch)
    ensures GetRaw(s', t, ch.pk) == ch.after && OthersKept(s, s', t, ch.pk)
  {
    hide Committed, ValidSchema, Consistent, GetRaw, TrueChange;
    assert [ch][1..] == [] && ChangesIn(t, [ch]) == [ch];
    assert LastOfRow([ch], 0);
    forall pk ensures pk != ch.pk ==> GetRaw(s', t, pk) == GetRaw(s, t, pk) {
      RawAfter(s, schema, [ch], s', t, pk);
    }
    RawAfter(s, schema, [ch], s', t, ch.pk);
  }

  /** After the mutation a read of an inserted key gives exactly the columns of the table, as
      given or null; of a patched key, the last field of each name and the old value elsewhere;
      of a deleted key, nothing. Every other key reads as before. */
  ghost predicate Leaves(s: State, t: TableInfo, m: Mutation, chs: seq<RowChange>, s': State) {
    match m
    case InsertRow(_, input) => |chs| == 1 && OthersKept(s, s', t, chs[0].pk) && InsertLeaves(t, input, chs[0].pk, GetRaw(s', t, chs[0].pk))
    case PatchRow(_, pk, fields) =>
      |chs| == 1 && OthersKept(s, s', t, pk) && PatchLeaves(t, pk, fields, GetRaw(s, t, pk), GetRaw(s', t, pk))
    case DeleteRow(_, pk) =>
      GetRaw(s', t, pk) == None && OthersKept(s, s', t, pk) && (chs == [] <==> GetRaw(s, t, pk).None?)
  }

  ghost predicate InsertLeaves(t: TableInfo, input: Row, pk: Scalar, row: Option<Row>) {
    && row.Some? && pk == Get(row.value, t.pk)
    && (forall c :: c in row.value <==> exists i :: 0 <= i < |t.columns| && t.columns[i].name == c)
    && (forall c :: c in row.value ==> row.value[c] == Get(input, c))
  }

  ghost predicate PatchLeaves(t: TableInfo, pk: Scalar, fields: seq<(string, Scalar)>, before: Option<Row>, after: Option<Row>) {
    && before.Some? && after.Some? && Get(after.value, t.pk) == pk
    && (forall i: nat :: Final(fields, i) && fields[i].0 != t.pk ==> Get(after.value, fields[i].0) == fields[i].1)
    && (forall c :: c != t.pk && !Mentions(fields, c) ==> Get(after.value, c) == Get(before.value, c))
  }

  /** Main result on one mutation: a successful batch of it alone leaves what it asks for. */
  lemma MutationLeaves(s: State, schema: seq<TableInfo>, m: Mutation, chs: seq<RowChange>, s': State, t: TableInfo)
    requires ValidSchema(schema) && t in schema && m.table == t.name && Consistent(s, t)
    requires Answers(s, schema, [m], chs) && Committed(s, schema, chs, s')
    ensures Leaves(s, t, m, chs, s')
  {
    hide Committed, ValidSchema, Consistent, GetRaw;
    OneAnswer(s, schema, m, chs, t);
    if chs == [] {
      NoChangeLeaves(s, schema, s', t);
    } else {
      assert chs == [chs[0]];
      OneChangeLeaves(s, schema, chs[0], s', t);
    }
  }

  lemma OneAnswer(s: State, schema: seq<TableInfo>, m: Mutation, chs: seq<RowChange>, t: TableInfo)
    requires ValidSchema(schema) && t in schema && m.table == t.name && Answers(s, schema, [m], chs)
    ensures |chs| <= 1 && AsksFor(s, t, m, if chs == [] then None else Some(chs[0]))
  {
    hide AsksFor;
    assert [m][..0] == [];
    assert forall cs: seq<RowChange> :: Answers(s, schema, [], cs) <==> cs == [];
    forall t' | t' in schema && t'.name == t.name ensures t' == t {
      var i :| 0 <= i < |schema| && schema[i] == t';
      SameName(schema, t, i);
    }
  }

  lemma NoChangeLeaves(s: State, schema: seq<TableInfo>, s': State, t: TableInfo)
    requires ValidSchema(schema) && t in schema && Consistent(s, t) && Committed(s, schema, [], s')
    ensures forall pk :: GetRaw(s', t, pk) == GetRaw(s, t, pk)
  {
    hide Committed, ValidSchema, Consistent, GetRaw;
    forall pk ensures GetRaw(s', t, pk) == GetRaw(s, t, pk) {
      RawAfter(s, schema, [], s', t, pk);
    }
  }

  /** The rows of a consistent table are what point reads return. */
  lemma RowsAreRaw(s: State, t: TableInfo, r: Row)
    requires Consistent(s, t)
    ensures r in Rows(s, t) <==> GetRaw(s, t, Get(r, t.pk)) == Some(r)
  {
    assert InStep(s, t, Candidates(t)[0]);
    assert TupleOf([t.pk], r) == [Get(r, t.pk)];
    var p := Primary(s, t);
    if r in Rows(s, t) {
      var k :| k in p && p[k].row == r;
    }
  }

  /** Over distinct primary keys, the new rows are the after rows and the untouched old rows. */
  lemma RowsAfter(s: State, schema: seq<TableInfo>, chs: seq<RowChange>, s': State, t: TableInfo, r: Row)
    requires ValidSchema(schema) && t in schema && Committed(s, schema, chs, s')
    requires Consistent(s, t) && TrueChanges(s, t, ChangesIn(t, chs)) && DistinctPks(ChangesIn(t, chs)) && Consistent(s', t)
    ensures var mine := ChangesIn(t, chs);
            r in Rows(s', t) <==>
              (exists i :: 0 <= i < |mine| && mine[i].after == Some(r)) ||
              (r in Rows(s, t) && forall i :: 0 <= i < |mine| ==> mine[i].pk != Get(r, t.pk))
  {
    hide Committed, Consistent, ChangesIn, GetRaw;
    var mine := ChangesIn(t, chs);
    var pk := Get(r, t.pk);
    RowsAreRaw(s, t, r);
    RowsAreRaw(s', t, r);
    RawAfter(s, schema, chs, s', t, pk);
    forall i | 0 <= i < |mine| ensures LastOfRow(mine, i) && (mine[i].after == Some(r) ==> mine[i].pk == pk) {
      assert TrueChange(s, t, mine[i]);
    }
  }

  // ---------------------------------------------------------------- uniqueness over a batch

  /** The primary key is the last column and no other. */
  ghost predicate UniqueShape(t: TableInfo, idx: IndexInfo) {
    idx.columns != [] && forall i :: 0 <= i < |idx.columns| ==> (idx.columns[i] == t.pk <==> i == |idx.columns| - 1)
  }

  lemma ShapeSplits(t: TableInfo, idx: IndexInfo)
    requires UniqueShape(t, idx)
    ensures idx.columns == NonPk(idx.columns, t.pk) + [t.pk]
  {
    var n := |idx.columns| - 1;
    var p: string -> bool := c => c != t.pk;
    assert idx.columns == idx.columns[..n] + [t.pk];
    SelectAppend(idx.columns[..n], [t.pk], p);
    SelectAll(idx.columns[..n], p);
    assert Select([t.pk], p) == [];
  }

  /** No two rows agree on all of the unique columns unless one of these is null. */
  ghost predicate UniqueHolds(s: State, t: TableInfo, idx: IndexInfo) {
    forall a, b :: a in Rows(s, t) && b in Rows(s, t) && SharesTuple(t, idx, a, b) ==> a == b
  }

  ghost predicate SharesTuple(t: TableInfo, idx: IndexInfo, a: Row, b: Row) {
    Filled(t, idx, a) && Agree(t, idx, a, b)
  }

  /** The change fills the unique columns and alters one of them. */
  ghost predicate Takes(t: TableInfo, idx: IndexInfo, ch: RowChange) {
    ch.after.Some? && Filled(t, idx, ch.after.value) && (ch.before.Some? ==> !Agree(t, idx, ch.before.value, ch.after.value))
  }

  lemma UniqueEntry(s: State, t: TableInfo, idx: IndexInfo, row: Row, key: Bytes)
    requires InStep(s, t, Candidate(idx.name, idx.columns)) && UniqueShape(t, idx)
    requires key in KeyspaceOf(s, KeyspaceId(t.name, idx.name))
    ensures var prefix, l := EncodeKey(UniqueTuple(t, idx, row)), KeyspaceOf(s, KeyspaceId(t.name, idx.name))[key];
            InRange(key, prefix, PrefixUpperBound(prefix)) <==> UniqueTuple(t, idx, l.row) == UniqueTuple(t, idx, row)
  {
    hide EncodeKey, Lex.Compare, PrefixUpperBound;
    var l := KeyspaceOf(s, KeyspaceId(t.name, idx.name))[key];
    var u, v := UniqueTuple(t, idx, row), UniqueTuple(t, idx, l.row);
    PrefixRange(EncodeKey(u), key);
    KeyPrefix(u, TupleOf(idx.columns, l.row));
    ShapeSplits(t, idx);
    assert TupleOf(idx.columns, l.row) == v + [Get(l.row, t.pk)];
    assert u <= v + [Get(l.row, t.pk)] <==> u == v;
  }

  function Under(s: State, t: TableInfo, idx: IndexInfo, row: Row): seq<Live> {
    var prefix := EncodeKey(UniqueTuple(t, idx, row));
    Visits(KeyspaceOf(s, KeyspaceId(t.name, idx.name)), prefix, PrefixUpperBound(prefix), false)
  }

  /** The entries under the unique prefix are those of the rows with the tuple, each once. */
  lemma UnderPrefix(s: State, t: TableInfo, idx: IndexInfo, row: Row)
    requires Consistent(s, t) && InStep(s, t, Candidate(idx.name, idx.columns)) && UniqueShape(t, idx)
    ensures var v := Under(s, t, idx, row);
            && (forall i :: 0 <= i < |v| ==> v[i].row in Rows(s, t) && v[i].pk == Get(v[i].row, t.pk))
            && (forall i :: 0 <= i < |v| ==> UniqueTuple(t, idx, v[i].row) == UniqueTuple(t, idx, row))
            && (forall r :: r in Rows(s, t) && UniqueTuple(t, idx, r) == UniqueTuple(t, idx, row)
                            ==> exists i :: 0 <= i < |v| && v[i].row == r)
            && (|v| >= 2 ==> v[0].pk != v[1].pk)
  {
    hide EncodeKey, InRange, PrefixUpperBound, UniqueTuple, RowKey, Consistent;
    var ks, prefix := KeyspaceOf(s, KeyspaceId(t.name, idx.name)), EncodeKey(UniqueTuple(t, idx, row));
    var hi := PrefixUpperBound(prefix);
    var keys, v := KeyRange(ks, prefix, hi), Visits(ks, prefix, hi, false);
    InStepRows(s, t, Candidate(idx.name, idx.columns));
    forall i | 0 <= i < |v|
      ensures v[i].row in Rows(s, t) && v[i].pk == Get(v[i].row, t.pk)
      ensures UniqueTuple(t, idx, v[i].row) == UniqueTuple(t, idx, row)
    {
      assert keys[i] in keys;
      assert v[i].row in RowSet(ks);
      UniqueEntry(s, t, idx, row, keys[i]);
    }
    forall r | r in Rows(s, t) && UniqueTuple(t, idx, r) == UniqueTuple(t, idx, row)
      ensures exists i :: 0 <= i < |v| && v[i].row == r
    {
      var k :| k in ks && ks[k].row == r;
      UniqueEntry(s, t, idx, row, k);
      assert k in keys;
      var i :| 0 <= i < |keys| && keys[i] == k;
      assert v[i].row == r;
    }
    if |v| >= 2 {
      assert keys[0] in keys && keys[1] in keys && KeyLess(keys[0], keys[1]);
      TwoEntriesDiffer(s, t, idx, keys[0], keys[1]);
    }
  }

  /** The two-entry prefix scan is enough: it finds no other row exactly when no other row agrees
      on the unique columns. */
  lemma FreeExactly(s: State, t: TableInfo, idx: IndexInfo, row: Row)
    requires Consistent(s, t) && InStep(s, t, Candidate(idx.name, idx.columns)) && UniqueShape(t, idx)
    requires RegularPks(s, t) && Regular(Get(row, t.pk))
    ensures FreeOf(s, t, idx, row) <==>
            forall r :: r in Rows(s, t) && Agree(t, idx, r, row) ==> Get(r, t.pk) == Get(row, t.pk)
  {
    hide EncodeKey, PrefixUpperBound, UniqueTuple, RowKey, Consistent, Visits, InStep, Agree;
    UnderPrefix(s, t, idx, row);
    forall r ensures UniqueTuple(t, idx, r) == UniqueTuple(t, idx, row) <==> Agree(t, idx, r, row) {
      TuplesByColumn(t, idx, r, row);
    }
    var v := Under(s, t, idx, row);
    forall i | 0 <= i < |v| ensures Same(v[i].pk, Get(row, t.pk)) <==> Get(v[i].row, t.pk) == Get(row, t.pk) {
      RegularEqual(v[i].pk, Get(row, t.pk));
    }
    FreeUnder(s, t, idx, row);
    assert FreeOf(s, t, idx, row) ==> |v| < 2;
  }

  /** A unique index refuses a row exactly when all its columns are filled, the row does not keep
      them all, and another row agrees on them. */
  lemma RefusedExactly(s: State, t: TableInfo, idx: IndexInfo, before: Option<Row>, row: Row)
    requires Consistent(s, t) && InStep(s, t, Candidate(idx.name, idx.columns)) && UniqueShape(t, idx) && idx.unique
    requires RegularPks(s, t) && Regular(Get(row, t.pk))
    ensures !PassesUnique(s, t, idx, before, row) <==>
              && (forall c :: c in idx.columns && c != t.pk ==> Get(row, c) != Null)
              && (before.Some? ==> exists c :: c in idx.columns && c != t.pk && Get(before.value, c) != Get(row, c))
              && exists r :: r in Rows(s, t) && Agree(t, idx, r, row) && Get(r, t.pk) != Get(row, t.pk)
  {
    hide EncodeKey, UniqueTuple, HasNull, FreeOf, Consistent, InStep;
    TuplesByColumn(t, idx, row, row);
    if before.Some? {
      TuplesByColumn(t, idx, row, before.value);
    }
    FreeExactly(s, t, idx, row);
  }

  lemma FreeUnder(s: State, t: TableInfo, idx: IndexInfo, row: Row)
    ensures var v := Under(s, t, idx, row);
            FreeOf(s, t, idx, row) <==> forall i :: 0 <= i < |v| && i < 2 ==> Same(v[i].pk, Get(row, t.pk))
  {
    hide Visits, Same, EncodeScalar, Take;
    var v := Under(s, t, idx, row);
    var prefix := EncodeKey(UniqueTuple(t, idx, row));
    var hits := Scan(KeyspaceOf(s, KeyspaceId(t.name, idx.name)), prefix, PrefixUpperBound(prefix), false, 2);
    assert hits == Take(v, 2);
    FirstTwo(v);
    forall i | 0 <= i < |v| && i < 2 ensures hits[i] == v[i] {
    }
  }

  lemma FirstTwo<T>(v: seq<T>)
    ensures |Take(v, 2)| == if |v| < 2 then |v| else 2
    ensures forall i :: 0 <= i < |Take(v, 2)| ==> Take(v, 2)[i] == v[i]
  {
  }

  lemma TwoEntriesDiffer(s: State, t: TableInfo, idx: IndexInfo, j: Bytes, k: Bytes)
    requires InStep(s, t, Candidate(idx.name, idx.columns)) && KeyLess(j, k)
    requires var ks := KeyspaceOf(s, KeyspaceId(t.name, idx.name)); j in ks && k in ks
    ensures var ks := KeyspaceOf(s, KeyspaceId(t.name, idx.name)); ks[j].pk != ks[k].pk
  {
    var ks := KeyspaceOf(s, KeyspaceId(t.name, idx.name));
    PkKey(t.pk, ks[j].row);
    PkKey(t.pk, ks[k].row);
    KeyLessNotEqual(j, k);
  }

  lemma KeyLessNotEqual(j: Bytes, k: Bytes)
    requires KeyLess(j, k)
    ensures j != k
  {
  }

  /** No two changes of the batch that fill and alter the unique columns agree on them. */
  ghost predicate AssignedDistinct(t: TableInfo, idx: IndexInfo, chs: seq<RowChange>) {
    forall i, j :: 0 <= i < j < |chs| && Takes(t, idx, chs[i]) && Takes(t, idx, chs[j])
                   ==> !Agree(t, idx, chs[i].after.value, chs[j].after.value)
  }

  ghost predicate UniqueSetting(s: State, schema: seq<TableInfo>, chs: seq<RowChange>, s': State, t: TableInfo, idx: IndexInfo) {
    && ValidSchema(schema) && t in schema && Committed(s, schema, chs, s') && Consistent(s, t) && Consistent(s', t)
    && TrueChanges(s, t, ChangesIn(t, chs)) && DistinctPks(ChangesIn(t, chs)) && AllPassUnique(s, t, ChangesIn(t, chs))
    && idx in t.indexes && idx.unique && UniqueShape(t, idx) && RegularPks(s, t)
    && (forall i :: 0 <= i < |ChangesIn(t, chs)| ==> Regular(ChangesIn(t, chs)[i].pk))
  }

  /** A row that has a tuple a passing change newly takes is the changed row itself. */
  lemma TakenOwner(s: State, t: TableInfo, idx: IndexInfo, ch: RowChange, r: Row)
    requires Consistent(s, t) && InStep(s, t, Candidate(idx.name, idx.columns)) && UniqueShape(t, idx) && RegularPks(s, t)
    requires TrueChange(s, t, ch) && Regular(ch.pk) && Takes(t, idx, ch) && FreeOf(s, t, idx, ch.after.value)
    requires r in Rows(s, t) && Agree(t, idx, r, ch.after.value)
    ensures Get(r, t.pk) == ch.pk
  {
    FreeExactly(s, t, idx, ch.after.value);
  }

  lemma KeptOwner(s: State, t: TableInfo, idx: IndexInfo, ch: RowChange, r: Row)
    requires Consistent(s, t) && UniqueHolds(s, t, idx)
    requires TrueChange(s, t, ch) && ch.after.Some? && !Takes(t, idx, ch)
    requires r in Rows(s, t) && SharesTuple(t, idx, ch.after.value, r)
    ensures Get(r, t.pk) == ch.pk
  {
    var prior := ch.before.value;
    ChangeTouchesPrimary(s, t, ch);
    RowsAreRaw(s, t, prior);
    assert SharesTuple(t, idx, prior, r);
  }

  /** The committed row that already has a change's unique tuple is the changed row itself. */
  lemma OwnerIsChanged(s: State, schema: seq<TableInfo>, chs: seq<RowChange>, s': State, t: TableInfo, idx: IndexInfo, i: nat, r: Row)
    requires UniqueSetting(s, schema, chs, s', t, idx) && UniqueHolds(s, t, idx)
    requires i < |ChangesIn(t, chs)| && ChangesIn(t, chs)[i].after.Some? && r in Rows(s, t)
    requires SharesTuple(t, idx, ChangesIn(t, chs)[i].after.value, r)
    ensures Get(r, t.pk) == ChangesIn(t, chs)[i].pk
  {
    hide Committed, ValidSchema, UniqueTuple, HasNull, FreeOf, ChangesIn, UniqueHolds, InStep, TrueChange, UniqueShape,
      EncodeKey;
    var ch := ChangesIn(t, chs)[i];
    assert TrueChange(s, t, ch) && Passed(s, t, ch);
    var k :| 0 <= k < |t.indexes| && t.indexes[k] == idx;
    assert InStep(s, t, Candidates(t)[k + 1]);
    assert PassesUnique(s, t, t.indexes[k], ch.before, ch.after.value);
    if Takes(t, idx, ch) {
      TuplesByColumn(t, idx, ch.after.value, if ch.before.Some? then ch.before.value else r);
      TakenOwner(s, t, idx, ch, r);
    } else {
      KeptOwner(s, t, idx, ch, r);
    }
  }

  /** Main result: over a batch of distinct primary keys that passed its checks, uniqueness
      is kept exactly when the newly assigned tuples are pairwise distinct. */
  lemma UniqueKeptExactly(s: State, schema: seq<TableInfo>, chs: seq<RowChange>, s': State, t: TableInfo, idx: IndexInfo)
    requires UniqueSetting(s, schema, chs, s', t, idx) && UniqueHolds(s, t, idx)
    ensures UniqueHolds(s', t, idx) <==> AssignedDistinct(t, idx, ChangesIn(t, chs))
  {
    hide Committed, ValidSchema, ChangesIn, Consistent, AllPassUnique, Agree, Filled, GetRaw;
    var mine := ChangesIn(t, chs);
    if AssignedDistinct(t, idx, mine) {
      forall a, b | a in Rows(s', t) && b in Rows(s', t) && SharesTuple(t, idx, a, b) ensures a == b {
        PairUnique(s, schema, chs, s', t, idx, a, b);
      }
    }
    if UniqueHolds(s', t, idx) {
      forall i, j | 0 <= i < j < |mine| && Takes(t, idx, mine[i]) && Takes(t, idx, mine[j])
        ensures !Agree(t, idx, mine[i].after.value, mine[j].after.value)
      {
        RowsAfter(s, schema, chs, s', t, mine[i].after.value);
        RowsAfter(s, schema, chs, s', t, mine[j].after.value);
        assert TrueChange(s, t, mine[i]) && TrueChange(s, t, mine[j]);
      }
    }
  }

  lemma SharesFlips(t: TableInfo, idx: IndexInfo, a: Row, b: Row)
    requires SharesTuple(t, idx, a, b)
    ensures SharesTuple(t, idx, b, a)
  {
  }

  lemma PairUnique(s: State, schema: seq<TableInfo>, chs: seq<RowChange>, s': State, t: TableInfo, idx: IndexInfo, a: Row, b: Row)
    requires UniqueSetting(s, schema, chs, s', t, idx) && UniqueHolds(s, t, idx)
    requires AssignedDistinct(t, idx, ChangesIn(t, chs))
    requires a in Rows(s', t) && b in Rows(s', t) && SharesTuple(t, idx, a, b)
    ensures a == b
  {
    hide Committed, ValidSchema, ChangesIn, Consistent, AllPassUnique, Agree, Filled, GetRaw;
    SharesFlips(t, idx, a, b);
    var mine := ChangesIn(t, chs);
    RowsAfter(s, schema, chs, s', t, a);
    RowsAfter(s, schema, chs, s', t, b);
    var i := if i :| 0 <= i < |mine| && mine[i].after == Some(a) then i else -1;
    var j := if j :| 0 <= j < |mine| && mine[j].after == Some(b) then j else -1;
    if i >= 0 && j < 0 {
      OwnerIsChanged(s, schema, chs, s', t, idx, i, b);
    } else if i < 0 && j >= 0 {
      OwnerIsChanged(s, schema, chs, s', t, idx, j, a);
    } else if i >= 0 && j >= 0 && i != j {
      KeptTuple(s, schema, chs, s', t, idx, i, j);
      KeptTuple(s, schema, chs, s', t, idx, j, i);
    }
  }

  /** A change that keeps its unique tuple cannot share it with another change. */
  lemma KeptTuple(s: State, schema: seq<TableInfo>, chs: seq<RowChange>, s': State, t: TableInfo, idx: IndexInfo, i: nat, j: nat)
    requires UniqueSetting(s, schema, chs, s', t, idx) && UniqueHolds(s, t, idx)
    requires i != j && i < |ChangesIn(t, chs)| && j < |ChangesIn(t, chs)|
    requires ChangesIn(t, chs)[i].after.Some? && ChangesIn(t, chs)[j].after.Some?
    requires SharesTuple(t, idx, ChangesIn(t, chs)[i].after.value, ChangesIn(t, chs)[j].after.value)
    ensures Takes(t, idx, ChangesIn(t, chs)[i])
  {
    hide Committed, ValidSchema, ChangesIn, AllPassUnique, UniqueHolds, UniqueShape;
    var ch, other := ChangesIn(t, chs)[i], ChangesIn(t, chs)[j];
    assert TrueChange(s, t, ch);
    if !Takes(t, idx, ch) {
      ChangeTouchesPrimary(s, t, ch);
      RowsAreRaw(s, t, ch.before.value);
      OwnerIsChanged(s, schema, chs, s', t, idx, j, ch.before.value);
    }
  }
}
