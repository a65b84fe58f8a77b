/** What holds after any run of batches (packages/engine/src/engine.ts). */
module EngineRuns {
  import opened Values
  import opened Wrappers
  import opened Store
  import opened Schema
  import opened Query
  import opened Database
  import opened EngineModule

  /** Each batch fails and leaves the state, or commits what it resolved to; within a batch no
      key of the table is written twice. */
  ghost predicate IsRun(schema: seq<TableInfo>, tooBig: Row -> bool, t: TableInfo, states: seq<State>, batches: seq<seq<Mutation>>) {
    && ValidSchema(schema) && t in schema && |states| == |batches| + 1
    && forall i :: 0 <= i < |batches| ==> IsStep(schema, tooBig, t, states[i], batches[i], states[i + 1])
  }

  ghost predicate IsStep(schema: seq<TableInfo>, tooBig: Row -> bool, t: TableInfo, s: State, ms: seq<Mutation>, s': State) {
    match ResolveAll(s, schema, tooBig, ms)
    case Err(_) => s' == s
    case Ok(chs) =>
      Committed(s, schema, chs, s') && DistinctPks(ChangesIn(t, chs))
  }

  /** The keys the batch writes are neither NaN nor -0. */
  ghost predicate WritesRegular(schema: seq<TableInfo>, tooBig: Row -> bool, t: TableInfo, s: State, ms: seq<Mutation>) {
    var r := ResolveAll(s, schema, tooBig, ms);
    r.Ok? ==> forall i :: 0 <= i < |ChangesIn(t, r.value)| ==> Regular(ChangesIn(t, r.value)[i].pk)
  }

  /** The new non-null unique tuples of the batch are pairwise distinct. */
  ghost predicate TakesDistinct(schema: seq<TableInfo>, tooBig: Row -> bool, t: TableInfo, idx: IndexInfo, s: State, ms: seq<Mutation>) {
    var r := ResolveAll(s, schema, tooBig, ms);
    r.Ok? ==> AssignedDistinct(t, idx, ChangesIn(t, r.value))
  }

  lemma StepKeepsInStep(schema: seq<TableInfo>, tooBig: Row -> bool, t: TableInfo, s: State, ms: seq<Mutation>, s': State)
    requires ValidSchema(schema) && t in schema && IsStep(schema, tooBig, t, s, ms, s') && Consistent(s, t)
    ensures Consistent(s', t) && s.lsn <= s'.lsn && (s'.lsn == s.lsn ==> Rows(s', t) == Rows(s, t))
  {
    hide ResolveAll, Consistent, DistinctPks;
    var r := ResolveAll(s, schema, tooBig, ms);
    if r.Ok? {
      MutateKeepsInStep(s, schema, tooBig, ms, s', t);
      CommittedLsn(s, schema, r.value, s', t);
    }
  }

  /** A commit without changes leaves every row, and any other raises the LSN. */
  lemma CommittedLsn(s: State, schema: seq<TableInfo>, chs: seq<RowChange>, s': State, t: TableInfo)
    requires t in schema && Committed(s, schema, chs, s')
    ensures s.lsn <= s'.lsn
    ensures s'.lsn == s.lsn ==> Rows(s', t) == Rows(s, t)
  {
    var k :| 0 <= k < |schema| && schema[k] == t;
    assert Candidates(schema[k])[0] == Candidate(PRIMARY, [t.pk]);
    if chs == [] {
      assert EmitAll([t.pk], ChangesIn(t, [])) == [];
    }
  }

  lemma RegularAfter(schema: seq<TableInfo>, tooBig: Row -> bool, t: TableInfo, s: State, ms: seq<Mutation>, s': State)
    requires ValidSchema(schema) && t in schema && IsStep(schema, tooBig, t, s, ms, s') && Consistent(s, t) && Consistent(s', t)
    requires RegularPks(s, t) && WritesRegular(schema, tooBig, t, s, ms)
    ensures RegularPks(s', t)
  {
    hide ResolveAll, Consistent, Committed, ValidSchema, Regular, ChangesIn;
    var r := ResolveAll(s, schema, tooBig, ms);
    if r.Ok? {
      ResolvedChanges(s, schema, tooBig, ms, t);
      forall row | row in Rows(s', t) ensures Regular(Get(row, t.pk)) {
        RowsAfter(s, schema, r.value, s', t, row);
      }
    }
  }

  lemma StepKeepsUnique(schema: seq<TableInfo>, tooBig: Row -> bool, t: TableInfo, idx: IndexInfo, s: State, ms: seq<Mutation>, s': State)
    requires ValidSchema(schema) && t in schema && IsStep(schema, tooBig, t, s, ms, s') && Consistent(s, t) && Consistent(s', t)
    requires idx in t.indexes && idx.unique && UniqueShape(t, idx) && RegularPks(s, t)
    requires WritesRegular(schema, tooBig, t, s, ms)
    requires UniqueHolds(s, t, idx)
    ensures UniqueHolds(s', t, idx) <==> TakesDistinct(schema, tooBig, t, idx, s, ms)
  {
    hide ResolveAll, Consistent, Committed, ValidSchema, Regular, ChangesIn, UniqueHolds, AssignedDistinct,
      AllPassUnique, TrueChanges, DistinctPks;
    var r := ResolveAll(s, schema, tooBig, ms);
    if r.Ok? {
      ResolvedChanges(s, schema, tooBig, ms, t);
      UniqueKeptExactly(s, schema, r.value, s', t, idx);
    }
  }

  /** Main result on writes: over any run of batches every index stays in step with the rows. */
  lemma {:induction false} RunKeepsInStep(schema: seq<TableInfo>, tooBig: Row -> bool, t: TableInfo, states: seq<State>,
                                          batches: seq<seq<Mutation>>, i: nat)
    requires IsRun(schema, tooBig, t, states, batches) && Consistent(states[0], t) && i < |states|
    ensures Consistent(states[i], t) && states[0].lsn <= states[i].lsn
  {
    hide Consistent, IsStep;
    if i == 0 {
    } else {
      RunKeepsInStep(schema, tooBig, t, states, batches, i - 1);
      StepKeepsInStep(schema, tooBig, t, states[i - 1], batches[i - 1], states[i]);
    }
  }

  lemma {:induction false} RunKeepsRegular(schema: seq<TableInfo>, tooBig: Row -> bool, t: TableInfo, states: seq<State>,
                                           batches: seq<seq<Mutation>>, i: nat)
    requires IsRun(schema, tooBig, t, states, batches) && Consistent(states[0], t) && RegularPks(states[0], t) && i < |states|
    requires forall j :: 0 <= j < i ==> WritesRegular(schema, tooBig, t, states[j], batches[j])
    ensures RegularPks(states[i], t)
  {
    hide Consistent, RegularPks, IsStep, WritesRegular;
    if i == 0 {
    } else {
      RunKeepsRegular(schema, tooBig, t, states, batches, i - 1);
      RunKeepsInStep(schema, tooBig, t, states, batches, i - 1);
      RunKeepsInStep(schema, tooBig, t, states, batches, i);
      RegularAfter(schema, tooBig, t, states[i - 1], batches[i - 1], states[i]);
    }
  }

  /** Main result on uniqueness: over any run no two rows ever share a non-null unique tuple
      if and only if each batch newly assigns pairwise distinct ones. */
  lemma {:induction false} RunKeepsUnique(schema: seq<TableInfo>, tooBig: Row -> bool, t: TableInfo, idx: IndexInfo, states: seq<State>,
                                          batches: seq<seq<Mutation>>, n: nat)
    requires IsRun(schema, tooBig, t, states, batches) && Consistent(states[0], t) && RegularPks(states[0], t) && n < |states|
    requires forall i :: 0 <= i < |batches| ==> WritesRegular(schema, tooBig, t, states[i], batches[i])
    requires idx in t.indexes && idx.unique && UniqueShape(t, idx) && UniqueHolds(states[0], t, idx)
    ensures (forall i :: 0 <= i <= n ==> UniqueHolds(states[i], t, idx)) <==>
            (forall i :: 0 <= i < n ==> TakesDistinct(schema, tooBig, t, idx, states[i], batches[i]))
  {
    hide Consistent, RegularPks, IsStep, UniqueHolds, TakesDistinct, WritesRegular;
    if n == 0 {
    } else {
      RunKeepsUnique(schema, tooBig, t, idx, states, batches, n - 1);
      RunKeepsInStep(schema, tooBig, t, states, batches, n - 1);
      RunKeepsInStep(schema, tooBig, t, states, batches, n);
      RunKeepsRegular(schema, tooBig, t, states, batches, n - 1);
      if forall i :: 0 <= i < n ==> UniqueHolds(states[i], t, idx) {
        StepKeepsUnique(schema, tooBig, t, idx, states[n - 1], batches[n - 1], states[n]);
      }
    }
  }

  /** Starting from the empty store, every index is in step after any run. */
  lemma FromEmpty(schema: seq<TableInfo>, tooBig: Row -> bool, t: TableInfo, states: seq<State>, batches: seq<seq<Mutation>>, i: nat)
    requires IsRun(schema, tooBig, t, states, batches) && states[0] == State(map[], 0) && i < |states|
    ensures Consistent(states[i], t)
  {
    hide IsStep;
    RunKeepsInStep(schema, tooBig, t, states, batches, i);
  }
}
