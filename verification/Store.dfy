/** The contract of the store underneath the engine: per keyspace a sorted map from keys to
    live rows, scanned by range and changed by whole batches
    (packages/engine/src/lsm/types.ts, packages/engine/src/lsm/store.ts). */
module Store {
  import Lex
  import opened Values
  import opened Wrappers
  import opened Keys
  import opened Sorting

  /** `row` is `None` for a tombstone. */
  datatype Entry = Entry(key: Bytes, pk: Scalar, row: Option<Row>)

  datatype Live = Live(pk: Scalar, row: Row)

  datatype KeyspaceId = KeyspaceId(table: string, index: string)

  type Keyspace = map<Bytes, Live>

  datatype State = State(keyspaces: map<KeyspaceId, Keyspace>, lsn: nat)

  const PRIMARY: string := "pk"

  predicate KeyLess(a: Bytes, b: Bytes) {
    Lex.Less(a, b)
  }

  lemma KeysOrdered(keys: set<Bytes>)
    ensures Orders(keys, KeyLess)
  {
    forall x: Bytes, y: Bytes
      ensures KeyLess(x, y) ==> !KeyLess(y, x)
      ensures x != y ==> KeyLess(x, y) || KeyLess(y, x)
    {
      Lex.CompareFlips(x, y);
    }
    forall x: Bytes, y: Bytes, z: Bytes | KeyLess(x, y) && KeyLess(y, z)
      ensures KeyLess(x, z)
    {
      Lex.LessTransitive(x, y, z);
    }
  }

  function KeysIn<V>(c: map<Bytes, V>, lo: Bytes, hi: Option<Bytes>): set<Bytes> {
    set k | k in c && InRange(k, lo, hi)
  }

  /** The keys of `[lo, hi)`, ascending. */
  function KeyRange<V>(c: map<Bytes, V>, lo: Bytes, hi: Option<Bytes>): (r: seq<Bytes>)
    ensures Ascending(r, KeyLess)
    ensures forall k :: k in r <==> k in c && InRange(k, lo, hi)
  {
    KeysOrdered(KeysIn(c, lo, hi));
    Arrange(KeysIn(c, lo, hi), KeyLess)
  }

  function Lookup<V>(c: map<Bytes, V>, keys: seq<Bytes>): (r: seq<V>)
    requires forall k :: k in keys ==> k in c
    ensures |r| == |keys|
    ensures forall i :: 0 <= i < |keys| ==> r[i] == c[keys[i]]
  {
    seq(|keys|, i requires 0 <= i < |keys| => c[keys[i]])
  }

  /** What a scan of `[lo, hi)` visits, in its direction. */
  function Visits<V>(c: map<Bytes, V>, lo: Bytes, hi: Option<Bytes>, desc: bool): seq<V> {
    var ks := KeyRange(c, lo, hi);
    Lookup(c, if desc then (ReverseTake(ks, 0); Reverse(ks)) else ks)
  }

  lemma VisitsBackward<V(!new)>(c: map<Bytes, V>, lo: Bytes, hi: Option<Bytes>)
    ensures Visits(c, lo, hi, true) == Reverse(Visits(c, lo, hi, false))
  {
    ReverseTake(KeyRange(c, lo, hi), 0);
  }

  function Scan<V>(c: map<Bytes, V>, lo: Bytes, hi: Option<Bytes>, desc: bool, limit: nat): seq<V> {
    Take(Visits(c, lo, hi, desc), limit)
  }

  function KeyspaceOf(s: State, id: KeyspaceId): Keyspace {
    if id in s.keyspaces then s.keyspaces[id] else map[]
  }

  function Found(ks: Keyspace, key: Bytes): Option<Live> {
    if key in ks then Some(ks[key]) else None
  }

  function GetByKey(s: State, id: KeyspaceId, key: Bytes): Option<Live> {
    Found(KeyspaceOf(s, id), key)
  }

  // ---------------------------------------------------------------- commit

  function ApplyEntry(ks: Keyspace, e: Entry): Keyspace {
    if e.row.Some? then ks[e.key := Live(e.pk, e.row.value)] else ks - {e.key}
  }

  function ApplyEntries(ks: Keyspace, es: seq<Entry>): Keyspace
    decreases |es|
  {
    if es == [] then ks else ApplyEntries(ApplyEntry(ks, es[0]), es[1..])
  }

  type Batch = map<KeyspaceId, seq<Entry>>

  predicate EmptyBatch(batch: Batch) {
    forall id :: id in batch ==> batch[id] == []
  }

  /** Every keyspace of the batch takes its entries in order; a batch without entries
      leaves the LSN alone. */
  function Commit(s: State, batch: Batch): State {
    if EmptyBatch(batch) then s
    else
      State(map id | id in s.keyspaces.Keys + batch.Keys ::
              ApplyEntries(KeyspaceOf(s, id), if id in batch then batch[id] else []),
            s.lsn + 1)
  }

  function Pending(batch: Batch, id: KeyspaceId): seq<Entry> {
    if id in batch then batch[id] else []
  }

  lemma CommitKeyspace(s: State, batch: Batch, id: KeyspaceId)
    ensures KeyspaceOf(Commit(s, batch), id) == ApplyEntries(KeyspaceOf(s, id), Pending(batch, id))
  {
  }

  ghost predicate Unwritten(es: seq<Entry>, key: Bytes) {
    forall i :: 0 <= i < |es| ==> es[i].key != key
  }

  /** Entry `i` is the last of the batch for its key. */
  ghost predicate LastFor(es: seq<Entry>, key: Bytes, i: nat) {
    i < |es| && es[i].key == key && Unwritten(es[i + 1..], key)
  }

  lemma {:induction false} UnwrittenStays(ks: Keyspace, es: seq<Entry>, key: Bytes)
    requires Unwritten(es, key)
    ensures Found(ApplyEntries(ks, es), key) == Found(ks, key)
    decreases |es|
  {
    if es == [] {
    } else {
      UnwrittenStays(ApplyEntry(ks, es[0]), es[1..], key);
    }
  }

  lemma {:induction false} LastEntryWins(ks: Keyspace, es: seq<Entry>, key: Bytes, i: nat)
    requires LastFor(es, key, i)
    ensures Found(ApplyEntries(ks, es), key) == if es[i].row.Some? then Some(Live(es[i].pk, es[i].row.value)) else None
    decreases |es|
  {
    if i == 0 {
      UnwrittenStays(ApplyEntry(ks, es[0]), es[1..], key);
    } else {
      assert es[1..][i..] == es[i + 1..];
      LastEntryWins(ApplyEntry(ks, es[0]), es[1..], key, i - 1);
    }
  }

  /** At each key of each keyspace a commit leaves what the last entry for it says, a row or
      nothing, and what was there if no entry names it; the LSN counts the batches that hold
      any entry. */
  lemma CommitLeaves(s: State, batch: Batch, id: KeyspaceId, key: Bytes)
    ensures var es, after := Pending(batch, id), GetByKey(Commit(s, batch), id, key);
            && (Unwritten(es, key) ==> after == GetByKey(s, id, key))
            && (forall i: nat :: LastFor(es, key, i) ==>
                  after == if es[i].row.Some? then Some(Live(es[i].pk, es[i].row.value)) else None)
    ensures Commit(s, batch).lsn == s.lsn + if exists id' :: id' in batch && batch[id'] != [] then 1 else 0
  {
    var ks, es := KeyspaceOf(s, id), Pending(batch, id);
    CommitKeyspace(s, batch, id);
    if Unwritten(es, key) {
      UnwrittenStays(ks, es, key);
    }
    forall i: nat | LastFor(es, key, i)
      ensures Found(ApplyEntries(ks, es), key) == if es[i].row.Some? then Some(Live(es[i].pk, es[i].row.value)) else None
    {
      LastEntryWins(ks, es, key, i);
    }
  }
}
