/** Page deltas: what the server sends and what applying it means
    (packages/protocol/src/messages.ts, packages/engine/src/ivm.ts, packages/client/src/store.ts). */
module Protocol {
  import opened Values
  import opened Wrappers
  import opened Sorting

  /** A row map keeps its entries in the order their keys were first set. */
  datatype RowMap = RowMap(keys: seq<Scalar>, rows: map<Scalar, Row>)

  const EMPTY: RowMap := RowMap([], map[])

  /** `typeof v` and `String(v)` name a scalar up to the sign of zero. */
  function PkStr(v: Scalar): Scalar {
    match v
    case Num(d) => if d.Zero() then Num(Binary64(false, 0, 0)) else v
    case _ => v
  }

  lemma RegularPkStr(v: Scalar)
    requires Regular(v)
    ensures PkStr(v) == v
  {
  }

  function Put(m: RowMap, k: Scalar, r: Row): RowMap {
    RowMap(if k in m.rows then m.keys else m.keys + [k], m.rows[k := r])
  }

  function KeyIn(r: Row, pk: string): Scalar {
    PkStr(Get(r, pk))
  }

  /** Index rows by primary key, one `set` per row. */
  function IndexRows(rows: seq<Row>, pk: string): RowMap {
    if rows == [] then EMPTY
    else
      var n := |rows| - 1;
      Put(IndexRows(rows[..n], pk), KeyIn(rows[n], pk), rows[n])
  }

  ghost predicate DistinctKeys(rows: seq<Row>, pk: string) {
    forall i, j :: 0 <= i < j < |rows| ==> KeyIn(rows[i], pk) != KeyIn(rows[j], pk)
  }

  lemma {:induction false} IndexedRows(rows: seq<Row>, pk: string)
    requires DistinctKeys(rows, pk)
    ensures var m := IndexRows(rows, pk);
            && |m.keys| == |rows|
            && (forall i :: 0 <= i < |rows| ==> m.keys[i] == KeyIn(rows[i], pk) && m.keys[i] in m.rows && m.rows[m.keys[i]] == rows[i])
            && (forall k :: k in m.rows ==> k in m.keys)
  {
    hide PkStr;
    if rows == [] {
    } else {
      var n := |rows| - 1;
      IndexedRows(rows[..n], pk);
      var m := IndexRows(rows[..n], pk);
      var k := KeyIn(rows[n], pk);
      forall i | 0 <= i < n ensures m.keys[i] != k {
        assert KeyIn(rows[i], pk) != KeyIn(rows[n], pk);
      }
    }
  }

  /** A map holds a row under the row's own key. */
  lemma IndexedMember(rows: seq<Row>, pk: string, k: Scalar, r: Row)
    requires DistinctKeys(rows, pk)
    ensures k in IndexRows(rows, pk).rows && IndexRows(rows, pk).rows[k] == r <==> r in rows && KeyIn(r, pk) == k
  {
    IndexedRows(rows, pk);
    var m := IndexRows(rows, pk);
    if k in m.rows && m.rows[k] == r {
      var i :| 0 <= i < |rows| && m.keys[i] == k;
    }
    if r in rows && KeyIn(r, pk) == k {
      var i :| 0 <= i < |rows| && rows[i] == r;
    }
  }

  datatype Delta = Delta(upserts: seq<Row>, removes: seq<Scalar>, hasOlder: bool, hasNewer: bool, total: int, changed: bool)

  // ---------------------------------------------------------------- what a delta does to the rows held

  function RemoveAll(rows: map<Scalar, Row>, removes: seq<Scalar>): (r: map<Scalar, Row>)
    ensures forall k :: k in r ==> k in rows && r[k] == rows[k]
  {
    if removes == [] then rows
    else
      var n := |removes| - 1;
      RemoveAll(rows, removes[..n]) - {PkStr(removes[n])}
  }

  function UpsertAll(rows: map<Scalar, Row>, upserts: seq<Row>, pk: string): map<Scalar, Row> {
    if upserts == [] then rows
    else
      var n := |upserts| - 1;
      UpsertAll(rows, upserts[..n], pk)[KeyIn(upserts[n], pk) := upserts[n]]
  }

  /** Removes first, then upserts; a replacing delta starts from nothing. */
  function PatchRows(rows: map<Scalar, Row>, upserts: seq<Row>, removes: seq<Scalar>, pk: string, replace: bool): map<Scalar, Row> {
    UpsertAll(RemoveAll(if replace then map[] else rows, removes), upserts, pk)
  }

  lemma {:induction false} RemovedKeys(rows: map<Scalar, Row>, removes: seq<Scalar>, k: Scalar)
    ensures k in RemoveAll(rows, removes) <==> k in rows && forall i :: 0 <= i < |removes| ==> PkStr(removes[i]) != k
  {
    if removes == [] {
    } else {
      var n := |removes| - 1;
      RemovedKeys(rows, removes[..n], k);
    }
  }

  /** The upserts land under their keys and nothing else moves. */
  lemma {:induction false} UpsertedRows(rows: map<Scalar, Row>, upserts: seq<Row>, pk: string, k: Scalar)
    requires DistinctKeys(upserts, pk)
    ensures var m := UpsertAll(rows, upserts, pk);
            && (forall i :: 0 <= i < |upserts| && KeyIn(upserts[i], pk) == k ==> k in m && m[k] == upserts[i])
            && ((forall i :: 0 <= i < |upserts| ==> KeyIn(upserts[i], pk) != k) ==>
                  (k in m <==> k in rows) && (k in m ==> m[k] == rows[k]))
  {
    if upserts == [] {
    } else {
      var n := |upserts| - 1;
      UpsertedRows(rows, upserts[..n], pk, k);
      forall i | 0 <= i < n && KeyIn(upserts[i], pk) == k ensures upserts[i] == upserts[..n][i] && KeyIn(upserts[n], pk) != k {
      }
    }
  }
}
