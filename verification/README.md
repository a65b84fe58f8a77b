# A verified model of rabbat

rabbat keeps a partition of rows in a log-structured store, answers paginated queries by seeking
in order-preserving byte keys, and streams the changes of each live window to its clients. This
project models that core in Dafny and proves what its parts promise each other.

| file | what it models |
|---|---|
| `Lex`, `Values`, `Keys` | scalars, their comparison, and the byte encoding of tuples |
| `Sorting`, `Wrappers` | ordered sequences, options and results |
| `Store`, `Memtable` | the contract of the store underneath, and its in-memory table |
| `Schema`, `Query`, `Filters` | tables, filters, the effective order and the index planner, and what they mean |
| `Database`, `Window`, `Seek`, `Paginate` | the plain answer to a query, and the seek path that refines it |
| `Engine`, `EngineRuns` | batches of mutations over denormalised indexes |
| `Protocol`, `Ivm`, `Live`, `Fallback` | page deltas, one subscription's baseline, and when the quick reject is sound |
| `Mirror`, `ClientStore` | the client's rows as a map and a sorted array, and the store that keeps them |
| `Hub`, `Sync` | the server's subscriptions, and both ends over lossy connections |
| `Durable` | chunks, signatures, crashes and scheduled jobs |
| `Worker` | the conditional cache at the edge |
| `Client` | mutations and actions over one socket at a time |

Code that works in place is a class or a method with loops, proved against functions on values;
the protocols are state machines over their steps, and their main results hold for every run.

The main results are `Keys.KeyOrderExactly`, `Paginate.SeekRefinesFallback`,
`EngineModule.MutationLeaves`, `EngineRuns.RunKeepsInStep`, `EngineRuns.RunKeepsUnique`, `Live.RejectSound`,
`Fallback.FallbackExactly`, `ClientStore.DeltaRoundTrip`, `Sync.MirrorIsFresh`, `Durable.RunExactly`,
`Durable.AckedSurvive`, `Worker.ServedWasCurrent` and `Worker.CrashExactly`.

## What the results assume

- Primary keys and pinned values are not NaN or -0; for live windows no value of a row is, since
  `===` then tells rows apart. The order columns of an index a query is served by, and the values
  of a cursor, are also free of characters outside the Basic Multilingual Plane, where byte order and
  `compareScalar` differ (`Keys.ScalarOrderExactly`, `Keys.KeyOrderExactly`). Other columns hold
  any text, and so does an order that no index serves.
- Within one batch the primary keys of a table are distinct. Reads inside a batch see the
  committed store only, and `EngineModule.InStepExactly` says exactly when a batch that repeats a
  key still leaves an index in step.
- A key anchor finds its row. `Window.SeekIsFallbackExactly` says exactly when an unresolved one
  does no harm. A live window on a key anchor also shows its row, which `after >= 1` gives.
- The columns of the effective order are distinct, and a keyspace has at most 4^24 entries, the
  last cap the growing scan reaches. Totals are exact for groups of at most 100,000 entries.
- A query is a function of the database state, its arguments and its identity, and each
  subscribe, window change and commit is served as one step.
- JSON is read back as written and never empty for a list with entries. Puts land in the order the
  persists began. `Durable.OrderlyIsSound` supposes that signatures separate the texts of the run;
  `Durable.RunExactly` does not, and `Durable.SignatureTells` proves it of texts that differ in length
  or in one code unit.

## Where the code and its words differ

- `packages/protocol/src/values.ts:40` says the byte encoding agrees that -0 is 0. It does not
  (`Keys.ZerosDisagree`), and `packages/engine/src/keys.ts:4-11` claims logical order for all
  tuples although text beyond the basic plane breaks it (`Keys.TextDisagrees`); `Keys.KeyOrderExactly`
  says exactly when it holds.
- `packages/engine/src/paginate.ts:209` says a deleted key anchor falls back to an edge. The two
  sides fall back to opposite edges, so the window is the tail followed by the head.
- `packages/engine/src/ivm.ts:55-60` promises that a rejected change lies outside the window. For
  a window the fallback loaded through a cursor with one side and not the other that fails, and only
  there (`Fallback.FallbackExactly`, `Fallback.FallbackRejectSound`).
- `packages/server/src/reactive.ts:119-124` takes the same LSN to mean the same rows. A window
  change whose reply was lost breaks that (`Sync.LostReplyGoesStale`, `Sync.ResumeExactly`).
- `packages/server/src/reactive.ts:175-179` promises messages to every changed subscription. A query
  that throws loses those of the subscriptions before it (`Hub.FanOutLoses`).
- `packages/server/src/partition.ts:689-691` keeps signatures back until the write is durable. A second
  persist that plans in between compares with old ones (`Durable.OverlapSkipsRevert`,
  `Durable.RevertIsLost`), and the first one's deletions can reach the second one's chunks
  (`Durable.RewriteIsLost`). `Durable.OverlapExactly` and `Durable.RunExactly` say exactly which
  overlaps keep every commit.
- `packages/server/src/partition.ts:697-699` takes an equal signature to mean an unchanged keyspace. Two
  texts of one length can share one (`Durable.SignaturesCollide`); `Durable.PersistExactly` says exactly when
  the skip is right.
- `packages/server/src/worker.ts:248` serves a cached body as unchanged. After a crash that loses a commit
  the LSN can name another state; `Worker.CrashExactly` says exactly when that can show.

## Model

| member | source | states |
|---|---|---|
| `Values.CompareScalarFlips` | packages/protocol/src/values.ts:26-50 | swapping two scalars negates their comparison, NaN, the two zeros and mixed types included |
| `Values.CompareScalarTransitive` | packages/protocol/src/values.ts:26-50 | the comparison of scalars is transitive, and strict if either step is, so it is a total preorder on every scalar |
| `Values.CompareRowsTransitive` | packages/protocol/src/values.ts:67-73 | the comparison of rows by any order is transitive, mixed directions included |
| `Values.CompareRowsEqual` | packages/protocol/src/values.ts:67-73 | rows that compare equal agree on every column of the order |
| `Values.CompareRowsIsTuples` | packages/protocol/src/values.ts:67-78 | comparing rows in one direction is comparing their sort-key tuples lexicographically, or the reverse of it |
| `Values.MagnitudeOrder` | packages/engine/src/keys.ts:33-44 | the fields of a binary64 value order as the real number they stand for |
| `Keys.PushUint64BE` | packages/engine/src/keys.ts:18-22 | the loop over the shifts appends the eight big-endian bytes |
| `Keys.PushText` | packages/engine/src/keys.ts:46-57 | the loop appends the escaped UTF-8 bytes of the text and the double-zero terminator |
| `Keys.BuildKey` | packages/engine/src/keys.ts:62-66 | the loop over the tuple builds exactly its key |
| `Keys.KnownKeys` | packages/engine/src/keys.ts:13-59 | the exact bytes of null, of true, of 1 and -2, and of a text that holds a zero and a letter of two bytes |
| `Keys.CompareBytes` | packages/engine/src/keys.ts:69-77 | the index loop computes the lexicographic order of the two byte strings, a prefix first |
| `Keys.OrderedBitsOrder` | packages/engine/src/keys.ts:38-43 | after the sign flip the 64-bit patterns order as the real values, and of two equal values only -0 lies below |
| `Keys.TextCodeOrder` | packages/engine/src/keys.ts:46-57 | escaped UTF-8 with its terminator orders as the code points do and parts inside both strings |
| `Keys.Utf16Order` | packages/protocol/src/values.ts:46-49 | JavaScript string order is code-point order except on a surrogate clash, where it is the reverse |
| `Keys.ScalarOrderExactly` | packages/engine/src/keys.ts:24-59 | byte order of two scalars equals `compareScalar` if and only if they are not the two zeros and not texts with a surrogate clash |
| `Keys.ZerosDisagree` | packages/protocol/src/values.ts:40-44 | -0 and 0 compare equal and have different bytes, against the comment on that line |
| `Keys.TextDisagrees` | packages/protocol/src/values.ts:46-49 | U+FFFF and U+10000 order one way as JavaScript strings and the other way as keys |
| `Keys.KeyOrderExactly` | packages/engine/src/keys.ts:4-11 | for all tuples byte order of the keys is lexicographic order of the tuples if and only if at the first elements that differ there is no surrogate clash, and if those are the two zeros the tuples order after them as the zeros do in bytes |
| `Keys.KeyOrder` | packages/engine/src/keys.ts:4-11 | tuples whose elements agree pairwise meet that condition, at any lengths |
| `Keys.KeyPrefix` | packages/engine/src/keys.ts:62-66 | one key is a byte prefix of another exactly when its tuple is a prefix, on all tuples: scalar codes are prefix-free |
| `Keys.KeyInjective` | packages/engine/src/keys.ts:62-66 | different tuples have different keys, on all tuples |
| `Keys.FindPrefixUpperBound` | packages/engine/src/keys.ts:84-95 | the popping loop computes the prefix bound the lemmas below are about |
| `Keys.PrefixRange` | packages/engine/src/keys.ts:79-95 | a key lies between a prefix and its bound exactly when the prefix is a byte prefix of it |
| `Keys.PrefixBoundIsLeast` | packages/engine/src/keys.ts:79-95 | the bound is the least byte string above every key with the prefix |
| `Keys.PrefixUnbounded` | packages/engine/src/keys.ts:82-94 | there is no bound exactly when every byte of the prefix is 0xFF |
| `Keys.SuccessorIsNext` | packages/engine/src/paginate.ts:45-50 | the keys below the successor of a key are exactly those up to and including it |
| `Keys.TupleGroupBounded` | packages/engine/src/paginate.ts:74-76 | the group of a non-empty equality prefix always has a finite bound |
| `Keys.KeyHexInjective` | packages/engine/src/keys.ts:97-104 | different keys have different hexadecimal names, so the hash map never mixes two |
| `MemtableModule.Memtable.LowerBound` | packages/engine/src/lsm/memtable.ts:80-89 | binary search finds the first index whose key is not below the target |
| `MemtableModule.Memtable.IndexOf` | packages/engine/src/lsm/memtable.ts:91-95 | finds the entry with the key, or reports that there is none |
| `MemtableModule.Memtable.Upsert` | packages/engine/src/lsm/memtable.ts:25-39 | the array stays strictly sorted, agrees with the hash map, the byte count stays the sum of entry costs, and the contents are the old ones with this entry set |
| `MemtableModule.Memtable.Get` | packages/engine/src/lsm/memtable.ts:41-43 | returns the entry of the key if and only if the contents have one |
| `MemtableModule.Memtable.RangeForward` | packages/engine/src/lsm/memtable.ts:46-55 | returns the first `limit` entries of `[lo, hi)` of the contents, ascending |
| `MemtableModule.Memtable.RangeBackward` | packages/engine/src/lsm/memtable.ts:58-67 | returns the first `limit` entries of the same range in reverse |
| `MemtableModule.Memtable.Clear` | packages/engine/src/lsm/memtable.ts:73-77 | leaves nothing, in array, hash map and byte count alike |
| `Store.CommitLeaves` | packages/engine/src/lsm/store.ts:366-389 | at each key of each keyspace a commit leaves what the last entry for it says, a row or nothing, and what was there if no entry names it; the LSN counts the batches that hold any entry |
| `Query.CompileMatcher` | packages/engine/src/query.ts:52-103 | succeeds exactly on well-formed filters, and the compiled test is their conjunction on every row, each test as the `Filters` lemmas say |
| `Filters.ComparisonsAreOrder` | packages/engine/src/query.ts:77-97 | a row passes each of the six comparisons with a value exactly when ordering by that column puts it so beside any row that holds the value |
| `Filters.NumbersCompare` | packages/engine/src/query.ts:77-97 | on numbers the six comparisons are those of the real values |
| `Filters.NullComesFirst` | packages/protocol/src/values.ts:28-33 | a missing or null column passes `<` and `<=` before every other value and equals only null |
| `Filters.InIsSomeEqual` | packages/engine/src/query.ts:55-62 | `in` passes exactly when equality with some member does |
| `Filters.FiltersJoin` | packages/engine/src/query.ts:99-102 | a row passes two lists of filters joined exactly when it passes each |
| `Filters.FiniteExactly` | packages/engine/src/query.ts:43-47 | a filter value is taken unless it is NaN or an infinity |
| `Filters.AcceptedExactly` | packages/engine/src/query.ts:24-76 | the filters accepted: a comparison with one such value, `in` with a list of them, `like` with a text of at most 256 units |
| `Filters.LikeSplits` | packages/engine/src/query.ts:29-41 | a pattern in two parts matches exactly the texts that split into a match of each |
| `Filters.LikePieces` | packages/engine/src/query.ts:29-41 | `%` matches every text, `_` every text of one unit, and a pattern without either only itself; with the split this fixes every pattern |
| `Filters.LikePrefix` | packages/engine/src/query.ts:29-41 | a text without wildcards followed by `%` matches exactly the texts that start with it |
| `Filters.LikeOnRows` | packages/engine/src/query.ts:63-73 | on a row: such a pattern alone passes the rows that hold it, and with `%` those whose text starts with it |
| `Query.EqualityBindings` | packages/engine/src/query.ts:116-122 | collects exactly the equality filters with a scalar, in order |
| `Query.EffectiveOrder` | packages/engine/src/query.ts:15-22 | the user's keys come first and at most the primary key follows, so every order names it; it descends exactly after a nonempty order that descends throughout, so an order of one direction keeps it |
| `Query.ChooseIndex` | packages/engine/src/query.ts:143-181 | the loops choose the plan of the first candidate whose unpinned columns are the order, or none |
| `Query.PlannedExactly` | packages/engine/src/query.ts:137-181 | there is a plan exactly when the order has one direction and some keyspace is served by pinned columns followed by the order columns |
| `Filters.PlannedByColumns` | packages/engine/src/query.ts:143-181 | the same, column by column: one direction, and some keyspace whose columns are ones with an equality filter, up to the first without, followed by exactly the order columns |
| `Filters.PlanIs` | packages/engine/src/query.ts:143-181 | the plan scans the first keyspace that fits, backward for a descending order, under the first value given for each leading column, with the rest of its columns free |
| `Query.PlanKeepsFilters` | packages/engine/src/query.ts:169-171 | the pinned columns and the residual filters together accept exactly the rows all filters accept |
| `Database.SamePkSameRow` | packages/engine/src/engine.ts:64-67 | in a consistent table two rows with one primary key are one row |
| `Database.RowsOrdered` | packages/protocol/src/values.ts:63-73 | any order that names the primary key strictly orders the rows of a table, whatever its other columns hold |
| `Database.AnswerUnique` | packages/engine/src/paginate.ts:52-59 | the matching rows have one arrangement in effective order, the answer |
| `Seek.GroupHoldsPinned` | packages/engine/src/paginate.ts:74-79 | a row lies in the byte range of the equality prefix exactly when it has the pinned values |
| `Seek.GroupOrder` | packages/engine/src/paginate.ts:74-79 | within the group, byte order is the effective order or its reverse; only the order columns need be plain |
| `Seek.GroupIsAnswer` | packages/engine/src/paginate.ts:74-79 | scanning the group with the residual filters visits exactly the answer to the query, or its reverse |
| `Seek.AnchorSplits` | packages/engine/src/paginate.ts:114-128 | the two byte ranges around an anchor hold the answer before the anchor and the answer from it on, with no gap or overlap, forward and reverse |
| `Seek.KeyAnchorSpot` | packages/engine/src/paginate.ts:207-217 | a key anchor resolves by point lookup exactly when its row is in the answer, and falls on that row |
| `Window.SeekIsFallbackExactly` | packages/engine/src/paginate.ts:282-289 | the seek window and the in-memory window have the same rows if and only if the anchor resolves, or the side after it is empty, or the answer is |
| `Window.FlagsAgree` | packages/engine/src/paginate.ts:96-105 | on a resolved anchor the flags agree on every side of positive size; a side of size zero reports no more rows on the seek path |
| `Window.SameWindow` | packages/engine/src/paginate.ts:96-105 | the two windows are one, flags included, when a side of size zero lies past an edge |
| `Paginate.ScanOnce` | packages/engine/src/paginate.ts:99-106 | one capped attempt is right whenever it found enough rows or saw the whole range |
| `Paginate.ScanSide` | packages/engine/src/paginate.ts:89-112 | the growing-cap loop ends with exactly the first `n` rows of the whole range that pass, and `more` exactly when there is another |
| `Paginate.AfterAt` | packages/engine/src/paginate.ts:115-118 | returns the first rows at or after the anchor in effective order |
| `Paginate.BeforeStrict` | packages/engine/src/paginate.ts:121-128 | returns the last rows before the anchor, in effective order |
| `Paginate.CountGroup` | packages/engine/src/paginate.ts:175-184 | counts the passing rows exactly for groups within the count cap |
| `Paginate.ResolveAnchorKey` | packages/engine/src/paginate.ts:187-219 | the physical key of an anchor, no key for an edge or an unresolved row, or the filter or cursor error |
| `Paginate.SeekSides` | packages/engine/src/paginate.ts:115-128 | the two scans of a planned window visit the answer from the anchor on, and the answer before it backwards |
| `Paginate.LoadSides` | packages/engine/src/paginate.ts:132-163 | the sides the anchor has are scanned, nearest rows first on the earlier one, and put together in order with their flags and the count of the group |
| `Paginate.SeekWindow` | packages/engine/src/paginate.ts:74-163 | the seek path returns the window of the answer at the anchor, with its flags and, within the cap, its total; or the cursor or filter error |
| `Paginate.FallbackWindow` | packages/engine/src/paginate.ts:227-290 | filtering, sorting and slicing the whole table gives the window of the answer, or the error for strict tables, bad filters, too many rows or a bad cursor |
| `Paginate.MaterializeWindow` | packages/engine/src/paginate.ts:60-163 | whichever path is taken, the result is the one its path promises |
| `Paginate.SeekRefinesFallback` | packages/engine/src/paginate.ts:60-163 | whenever there is a plan, the seek fails only when the fallback does, its rows equal the fallback rows if and only if the anchor resolves or the later side is empty, flags agree on non-empty sides, and totals agree within the cap |
| `EngineModule.Engine.Mutate` | packages/engine/src/engine.ts:106-184 | a batch either fails and changes nothing, with the error of its first mutation to fail, or commits the changes its mutations ask for and reports them and the new LSN |
| `EngineModule.ResolvedExactly` | packages/engine/src/engine.ts:135-180 | a mutation of a known table is refused for a reason exactly when that reason holds, and otherwise makes the change it asks for: an insert exactly the columns of the table as given or null, a patch the last field of each name over the committed row, a delete nothing |
| `EngineModule.BatchAsAsked` | packages/engine/src/engine.ts:106-184 | a batch resolves to the changes its mutations ask for, in order, unless one fails, and then to the error of the first that does |
| `EngineModule.MutationLeaves` | packages/engine/src/engine.ts:106-184 | after a successful batch of one mutation the row at its key is what it asked for, column by column, and every other row is as it was |
| `EngineModule.AcceptedBy` | packages/engine/src/engine.ts:247-276 | the values a column accepts: null where it may be null, a boolean, a text, a finite number, and for an integer column a whole multiple of one |
| `EngineModule.WholeExactly` | packages/engine/src/engine.ts:260-262 | the integers among the doubles are the whole multiples of the double one |
| `EngineModule.InsertedExactly` | packages/engine/src/engine.ts:278-301 | an insert is accepted if and only if it supplies every column with a value it accepts and the row is not too big, and then the row has exactly the columns of the table, as given or null |
| `EngineModule.PatchedExactly` | packages/engine/src/engine.ts:143-170 | a patch is accepted if and only if every field names a column, keeps the key and has a value the column accepts and the row is not too big; then the named columns change, the last field of a name winning, and nothing else |
| `EngineModule.FillRow` | packages/engine/src/engine.ts:278-295 | the loop over the columns computes the row, or the first error |
| `EngineModule.ApplyFields` | packages/engine/src/engine.ts:150-170 | the loop over the fields computes the patched row, or the first error |
| `EngineModule.CheckIndex` | packages/engine/src/engine.ts:220-243 | a row passes an index that is not unique or one of whose columns it leaves null; otherwise the answer is that of the tuple kept or the prefix scan |
| `EngineModule.NullPasses` | packages/engine/src/engine.ts:224-230 | a row with a null in a column of the index other than the key, or that keeps what it had in all of them, passes whatever is stored |
| `EngineModule.RefusedExactly` | packages/engine/src/engine.ts:220-243 | a unique index refuses a row exactly when none of its columns but the key is null, some column changes, and another row agrees on all of them |
| `EngineModule.ResolveMutation` | packages/engine/src/engine.ts:135-180 | one mutation gives the change of `ResolvedExactly`, read against the committed store, none for a delete of an absent row, or its error |
| `EngineModule.EmitWrite` | packages/engine/src/engine.ts:124-133 | one transition adds, in every keyspace of its table, a tombstone for a key that moved or went and an entry for the new key |
| `EngineModule.FailsEarly` | packages/engine/src/engine.ts:135-180 | the first mutation that fails decides the error of the batch |
| `EngineModule.ResolvedChanges` | packages/engine/src/engine.ts:135-180 | the changes of a successful batch are true of the committed store, before and after, and passed the uniqueness checks |
| `EngineModule.EmitLeaves` | packages/engine/src/engine.ts:124-133 | what one transition leaves at a key: the row, nothing, or what was there |
| `EngineModule.InStepExactly` | packages/engine/src/engine.ts:124-133 | after a batch an index is in step with the primary keyspace if and only if no change but the last of a row leaves a key behind |
| `EngineModule.ConsistentExactly` | packages/engine/src/engine.ts:106-184 | after a committed batch the whole table is consistent if and only if no index has a stray key; reads inside the batch see only the committed store |
| `EngineModule.MutateKeepsInStep` | packages/engine/src/engine.ts:106-184 | a successful batch over distinct primary keys keeps every index equal to the rows re-keyed |
| `EngineModule.RowsAfter` | packages/engine/src/engine.ts:106-184 | the rows after a batch are exactly the after-rows of its changes and the old rows it did not touch |
| `EngineModule.FreeExactly` | packages/engine/src/engine.ts:231-241 | the two-entry prefix scan finds a violation exactly when another row agrees on every column of the index but the key |
| `EngineModule.UniqueKeptExactly` | packages/engine/src/engine.ts:214-244 | a batch keeps a unique index free of two rows that agree on all its columns, none of them null, if and only if no two rows it newly assigns do |
| `EngineRuns.RunKeepsInStep` | packages/engine/src/engine.ts:106-184 | over any run of batches with distinct keys every index stays in step with the rows |
| `EngineRuns.RunKeepsUnique` | packages/engine/src/engine.ts:214-244 | over any run of batches no two rows ever agree on all columns of a unique index, none of them null, if and only if no batch newly assigns two such rows |
| `Ivm.Subscription.WindowCanChange` | packages/engine/src/ivm.ts:61-76 | the loop answers true exactly when the subscription is unseeded or some change of its group touches a visible row or falls within the span |
| `Live.PassedOverExactly` | packages/engine/src/ivm.ts:61-76 | after a page a commit is looked at again exactly when some change to the table, of a row that matches before or after, replaces a row shown or puts or takes a row not past an edge with more behind it; the test on equality filters changes nothing |
| `Ivm.Subscription.TotalOnlyDelta` | packages/engine/src/ivm.ts:84-103 | the total moves by the net of matching rows, with a delta exactly when that is not zero |
| `Ivm.Subscription.SeedBaseline` | packages/engine/src/ivm.ts:123-143 | the page becomes the baseline and no row is sent |
| `Ivm.Subscription.ApplyPage` | packages/engine/src/ivm.ts:146-180 | the page becomes the baseline and the delta is the difference from the one before |
| `Ivm.DeltaCarries` | packages/engine/src/ivm.ts:146-180 | applying the delta to the rows of the previous page gives exactly the rows of the new page, and no row the client already has is sent |
| `Ivm.ChangedExactly` | packages/engine/src/ivm.ts:146-180 | a delta counts as a change exactly when the page shows other rows than the one before, or another flag or total |
| `Ivm.RowsEqualRegular` | packages/engine/src/ivm.ts:183-189 | field-wise `===` of two rows without NaN and -0 is equality, on any text |
| `Live.WindowKept` | packages/engine/src/ivm.ts:105-115 | when only hidden rows leave an answer and only rows beyond a flagged edge enter it, the window keeps its rows and the baseline goes on describing it |
| `Live.RejectedIsOutside` | packages/engine/src/ivm.ts:61-76 | a commit the quick reject passes over takes only hidden rows out of the answer and brings in only rows beyond a flagged edge |
| `Live.TotalMovesByNet` | packages/engine/src/ivm.ts:84-103 | the size of the answer moves by exactly the net of the commit, whatever the window |
| `Live.RejectSound` | packages/engine/src/ivm.ts:55-115 | when the quick reject answers false for a commit with distinct keys, materializing again gives the same rows, the anchor stays resolved, the baseline still describes the window and an exact total is kept exact |
| `Live.FlagsExactly` | packages/engine/src/ivm.ts:109-115 | a stored flag is what a fresh page would say if and only if it is unset or some row of the answer still lies off the window on its side |
| `Fallback.PlainKept` | packages/engine/src/paginate.ts:282-289 | where no row can hide at the cut of a fallback window, changes beyond its flagged edges keep its rows and its baseline |
| `Fallback.PlainIsFresh` | packages/engine/src/paginate.ts:227-290 | the fallback loads the window a seek would, flags included, when its sides are empty only past an edge, so end-to-end runs cover it |
| `Fallback.FallbackRejectSound` | packages/engine/src/ivm.ts:55-115 | on windows the fallback loaded at an edge, at a key it shows, or at a cursor with both sides or neither, a commit the quick reject passes over keeps the rows, the anchor, the baseline and an exact total |
| `Fallback.FallbackExactly` | packages/engine/src/ivm.ts:61-76 | every commit passed over keeps the rows a cursor shows through the fallback if and only if it loads both sides or neither; writing one note is the input that moves the others |
| `Mirror.EqualIsKey` | packages/client/src/store.ts:18 | two scalars compare equal exactly when they have one key string, on all scalars |
| `Mirror.BisectFinds` | packages/client/src/store.ts:119-127 | binary search of a sorted array ends at the first row at or after the one sought |
| `Mirror.RemovedFromIsWithout` | packages/client/src/store.ts:130-149 | whatever the order, the search and its linear fallback take out exactly the row with the key |
| `Mirror.PatchAgrees` | packages/client/src/store.ts:74-101 | removes and then upserts, one row at a time, keep the array the sorted mirror of the map; a replacing delta makes it so |
| `ClientStore.SubscriptionStore.Seed` | packages/client/src/store.ts:59-72 | the map indexes the seeded rows, the array is their stable sort, and the two agree when keys are distinct |
| `ClientStore.SubscriptionStore.LowerBound` | packages/client/src/store.ts:119-127 | the halving loop computes the bisection the lemmas are about |
| `ClientStore.SubscriptionStore.InsertSorted` | packages/client/src/store.ts:119-128 | the row goes in at its sorted place |
| `ClientStore.SubscriptionStore.RemoveFromSorted` | packages/client/src/store.ts:130-149 | the row found from its sorted place, or else the first with its key, is spliced out, on any array |
| `ClientStore.SubscriptionStore.ApplyDelta` | packages/client/src/store.ts:74-101 | map and array take the removes and then the upserts one at a time, on nothing when the delta replaces; the array mirrors the map whenever it did before or the delta replaces, and counters, status and watermark are the delta's |
| `ClientStore.SubscriptionStore.Reset` | packages/client/src/store.ts:110-117 | no rows and no watermark are left; the counters stay until the next delta |
| `Mirror.MirrorUnique` | packages/client/src/store.ts:21-26 | the map of rows determines the sorted array |
| `ClientStore.DeltaRoundTrip` | packages/client/src/store.ts:74-149 | what mirrors one page and takes the delta of the next has the next page as its array, row for row, and no unchanged row was sent |
| `ClientStore.Refresh` | packages/engine/src/ivm.ts:146-180 | the server's diff followed by the client's patch leaves the store with the new page as its array and the server's map as its map |
| `Hub.ReactiveHub.CountForConn` | packages/server/src/reactive.ts:53-57 | counts the subscriptions of the connection |
| `Hub.ReactiveHub.RemoveConnection` | packages/server/src/reactive.ts:45-47 | drops exactly the subscriptions of the connection |
| `Hub.ReactiveHub.Unsubscribe` | packages/server/src/reactive.ts:49-51 | drops exactly that subscription |
| `Hub.ReactiveHub.Subscribe` | packages/server/src/reactive.ts:59-79 | the query is asked with the name, arguments, window and identity given; past the limit or when it throws nothing is registered, otherwise the record has its page as baseline and the page is sent whole, or without rows on a resume |
| `Hub.ReactiveHub.SetPagination` | packages/server/src/reactive.ts:105-110 | the record's own query is asked under the new window and the stored identity; the window stays taken when it throws, otherwise the page becomes the baseline and the difference is sent |
| `Hub.ReactiveHub.Reauth` | packages/server/src/reactive.ts:86-103 | every subscription of the connection asks its own query under its window and the new identity and starts over with that page, or is told the error and dropped; no other is touched or sent anything |
| `Hub.ReactiveHub.OnCommit` | packages/server/src/reactive.ts:180-243 | it succeeds exactly when every query needed answers; then each subscription whose window can change has asked its own query under its window and identity and holds that page, the difference being sent if any, and each other one has its total moved by the net of the commit |
| `Hub.FirstAsks` | packages/server/src/reactive.ts:113-173 | a first evaluation asks under the record's window and identity, fails as the query does, and otherwise sends the head and the whole page, or none of its rows on a resume |
| `Hub.LaterAsks` | packages/server/src/reactive.ts:113-173 | a later evaluation asks the same way and sends the difference from the page before |
| `Hub.CommitAsks` | packages/server/src/reactive.ts:180-231 | what a commit asks, keeps and sends for one record, and when it fails |
| `Hub.RebindAsks` | packages/server/src/reactive.ts:86-103 | what a change of identity asks, keeps and sends for one record |
| `Hub.ReboundExactly` | packages/server/src/reactive.ts:86-103 | re-binding replaces or drops each record of the connection exactly as its own evaluation says |
| `Hub.FannedExactly` | packages/server/src/reactive.ts:180-243 | a commit reaches every subscription if and only if no query throws, and then each one's record and messages are those of its own step, whatever the others do |
| `Hub.FanOutLoses` | packages/server/src/reactive.ts:180-243 | when a query throws, the subscriptions before it have already moved their baselines and nothing is sent to them |
| `Sync.DiffLands` | packages/server/src/reactive.ts:146-168 | a merging delta takes a client in step with the baseline to the new page |
| `Sync.FullLands` | packages/server/src/reactive.ts:164-168 | a first evaluation without resume replaces whatever the client held by the page |
| `Sync.AskKeeps` | packages/server/src/reactive.ts:113-173 | serving a subscription, resumed or not, leaves client and baseline in step, unless it resumes a window other than the one last sent |
| `Sync.MoveKeeps` | packages/server/src/reactive.ts:105-110 | serving a window change leaves client and baseline in step |
| `Sync.RejectedKeeps` | packages/server/src/reactive.ts:184-205 | a commit passed over by the quick reject leaves the client right, whether or not its total is sent |
| `Sync.RefreshedKeeps` | packages/server/src/reactive.ts:206-231 | a commit that re-materializes leaves the client right, and a delta without change need not be sent |
| `Sync.StepKeeps` | packages/server/src/reactive.ts:59-243 | every step (commit, window change, serve, deliver, lost connection, reconnect) keeps the invariant, a stale resume excepted |
| `Sync.RunKeeps` | packages/server/src/reactive.ts:59-243 | the invariant holds at every state of every run |
| `Sync.ServeGoes` | packages/server/src/reactive.ts:105-173 | in every state of a run the server can take the client's first message: asked under its window and the subscriber's identity, the query answers with the page |
| `Sync.WriteGoes` | packages/server/src/reactive.ts:180-231 | in every state of a run a commit gets through to the subscription under its stored window and identity |
| `Sync.MirrorIsFresh` | packages/server/src/reactive.ts:59-243 | whenever both channels are empty, the client's sorted array is the rows of a fresh materialization of its window on the current database, its total is exact, and each flag is right if and only if it is unset or a row lies off the window on its side |
| `Sync.FirstPageArrives` | packages/server/src/reactive.ts:59-79 | a new client that connects is served and reaches a moment with both channels empty and its watermark at the LSN |
| `Sync.ResumeExactly` | packages/engine/src/ivm.ts:117-122 | a resume at the current LSN leaves the client with the rows of its window if and only if that window shows the same rows as the last one it was sent |
| `Sync.LostReplyGoesStale` | packages/client/src/client.ts:375-435 | a window change whose reply is lost, followed by a reconnect before the next commit, leaves the client with the rows of the old window and nothing more to come |
| `Sync.MaterializedPage` | packages/engine/src/paginate.ts:60-163 | what the seek path materializes for an anchored window is the page the steps speak of |
| `Sync.MutationCommits` | packages/engine/src/engine.ts:106-184 | what a successful batch over distinct keys changes is a commit of the run |
| `Durable.ComputeFnv1a` | packages/server/src/partition.ts:623-630 | the loop computes the 32-bit FNV-1a hash, multiplication wrapping |
| `Durable.KnownHashes` | packages/server/src/partition.ts:623-630 | it gives the published values for the empty text, "a" and "foobar" |
| `Durable.RoundInjective` | packages/server/src/partition.ts:626-628 | one round loses nothing: it tells any two hashes apart, and any two code units |
| `Durable.EndingKeeps` | packages/server/src/partition.ts:623-630 | texts with the same ending have one hash exactly when what comes before it does |
| `Durable.SignatureTells` | packages/server/src/partition.ts:696 | signatures tell apart any two texts that differ in length or in exactly one code unit |
| `Durable.SignaturesCollide` | packages/server/src/partition.ts:696 | two texts of one length share a signature, so no run may take separation for granted |
| `Durable.SlicesJoin` | packages/server/src/partition.ts:663-669 | the 64 KiB slices of a text, joined in order, are the text |
| `Durable.DurableStore.LoadState` | packages/server/src/partition.ts:658-671 | rebuilds the manifest and each keyspace whose joined chunks are not empty, or nothing without a manifest |
| `Durable.DurableStore.Persist` | packages/server/src/partition.ts:674-724 | one put of manifest, changed chunks, index and jobs, then the deletions of leftover chunks, then the staged signatures: storage and signatures are exactly those |
| `Durable.DurableStore.CompleteJob` | packages/server/src/partition.ts:738-740 | removes exactly that job |
| `Durable.DurableStore.RetryJob` | packages/server/src/partition.ts:742-745 | updates the job if it is still there |
| `Durable.LoadExactly` | packages/server/src/partition.ts:658-671 | what is stored recovers a state, up to empty keyspaces, if and only if each keyspace's text is the JSON of the state's |
| `Durable.PersistExactly` | packages/server/src/partition.ts:674-724 | stopped before its deletions or not, a persist recovers exactly the state dumped, up to empty keyspaces, if and only if every keyspace it skipped really held the text dumped |
| `Durable.PersistRecovers` | packages/server/src/partition.ts:692-699 | with true signatures that separate the compared texts, a persist always recovers the state dumped |
| `Durable.ChangedIsWritten` | packages/server/src/partition.ts:692-716 | with true signatures a persist writes every keyspace whose text changed in length or in exactly one code unit, and then holds the text dumped |
| `Durable.UnsureIsWritten` | packages/server/src/partition.ts:697-699 | a keyspace this process has not written yet, or whose chunk count the index read does not fit, is written whatever the signatures say |
| `Durable.ChunksBounded` | packages/server/src/partition.ts:702-706 | no chunk written is empty or over 64 KiB, and only the last of a keyspace is less |
| `Durable.UnchangedIsSkipped` | packages/server/src/partition.ts:697-699 | once a persist has settled, the next one leaves a keyspace whose text has not changed alone |
| `Durable.StrayExactly` | packages/server/src/partition.ts:707-719 | once a persist has settled, a chunk the index does not count is left exactly when it was there before and the text written does not reach it |
| `Durable.PutExactly` | packages/server/src/partition.ts:674-716 | whatever index and signatures a persist worked from and whatever landed meanwhile, its put leaves the state dumped if and only if every keyspace it did not write then reads as dumped |
| `Durable.CleanExactly` | packages/server/src/partition.ts:718-719 | deletions keep the text of a keyspace if and only if they take no counted chunk of it |
| `Durable.OverlapExactly` | packages/server/src/partition.ts:674-724 | two persists whose puts land in start order, the first deleting last: the second state is what is stored if and only if every keyspace the second skipped held its text and the late deletions take no counted chunk; then a load recovers it, and only then if what is stored is JSON |
| `Durable.StepExactly` | packages/server/src/partition.ts:470-485 | a step of any run from storage that holds the last landed commit leaves storage that does if and only if it is sound |
| `Durable.RunExactly` | packages/server/src/partition.ts:470-485 | in a run of any overlapping persists, crashes and jobs, storage holds the last landed commit at every moment if and only if every put skipped rightly and no deletion took a counted chunk |
| `Durable.AckedSurvive` | packages/server/src/partition.ts:470-485 | as long as those conditions were met, at every moment a load would recover the state after some commit no earlier than any acknowledged one, with exactly the uncompleted jobs of that commit and those before it |
| `Durable.OrderlyIsSound` | packages/server/src/partition.ts:674-724 | with separating signatures the conditions are met by every schedule in which a persist writes what unsettled ones ahead of it write, settles before a later one that shares a keyspace, and deletes before the next put or nothing counted |
| `Durable.SerialIsOrderly` | packages/server/src/partition.ts:674-724 | persists one at a time are such a schedule |
| `Durable.OverlapSkipsRevert` | packages/server/src/partition.ts:695-699 | a persist begun before the one ahead has settled skips a keyspace that went back to its old text, which keeps the text in between |
| `Durable.OverlapKeyspace` | packages/server/src/partition.ts:718-723 | after the late deletions a keyspace holds its new text if and only if it did after the second put and no chunk counted then is among them |
| `Durable.LateSettleStale` | packages/server/src/partition.ts:720-723 | of two persists that write a keyspace, the one that settles last leaves its signature, whichever text is stored |
| `Durable.RevertIsLost` | packages/server/src/partition.ts:695-699 | for any faithful JSON and any two one-chunk lists their signatures tell apart: a keyspace that changes and changes back keeps the text in between |
| `Durable.RewriteIsLost` | packages/server/src/partition.ts:718-723 | for any such lists: a keyspace emptied and written again loses the chunk the second persist wrote to the first one's deletion |
| `Worker.Edge.Look` | packages/server/src/worker.ts:235-242 | the cached answer and its watermark, if there is one |
| `Worker.Edge.Finish` | packages/server/src/worker.ts:247-276 | serves the cached body on a 304, otherwise the new one, cached only when it succeeded |
| `Worker.StepKeeps` | packages/server/src/worker.ts:235-270 | every step of a request, commit, eviction and safe crash keeps the invariant |
| `Worker.ServedWasCurrent` | packages/server/src/worker.ts:235-270 | over any interleaving with commits and safe crashes every body served is the query's result on a state that was current while the request was under way |
| `Worker.CrashExactly` | packages/server/src/worker.ts:247-252 | where every answer can change, all bodies served after a crash are current if and only if each body cached or on its way to the cache has a watermark below the LSN the crash leaves or is the body to serve at it, and so for each body looked up unless it was current since its request came in |
| `FunctionsClientModule.FunctionsClient.constructor` | packages/client/src/client.ts:97-123 | establishes what every event keeps: each id is waiting or settled, is handed to a socket at most once and settled at most once, and the outbox is within its cap; without `setAuth` everything waiting is queued or in flight on the current socket |
| `FunctionsClientModule.FunctionsClient.Connect` | packages/client/src/client.ts:140-155 | a new socket only when there is none; nothing waiting is touched |
| `FunctionsClientModule.FunctionsClient.Request` | packages/client/src/client.ts:483-497 | takes a fresh id; an open socket gets the frame once, otherwise it is queued, and past the cap the oldest queued frame goes and its request is rejected |
| `FunctionsClientModule.FunctionsClient.Send` | packages/client/src/client.ts:264-280 | an open socket gets the frame; offline a request is queued, and past the cap the oldest is dropped and rejected |
| `FunctionsClientModule.NewestKept` | packages/client/src/client.ts:272-279 | what stays queued is everything up to the cap, and past it the latest requests in order |
| `FunctionsClientModule.FunctionsClient.SettlePending` | packages/client/src/client.ts:283-289 | settles a request at most once: only one still waiting, and it waits no longer |
| `FunctionsClientModule.FunctionsClient.FailPending` | packages/client/src/client.ts:247-258 | rejects exactly the requests that are not queued, in order |
| `FunctionsClientModule.FunctionsClient.OnOpen` | packages/client/src/client.ts:157-169 | everything queued is handed to the new socket in order and the queue is empty |
| `FunctionsClientModule.FunctionsClient.OnClose` | packages/client/src/client.ts:223-244 | what was in flight fails, what is queued stays, and a stale socket is ignored |
| `FunctionsClientModule.FunctionsClient.OnAnswer` | packages/client/src/client.ts:501-547 | an answer settles a waiting request, and only on the current socket |
| `FunctionsClientModule.FunctionsClient.OnTimeout` | packages/client/src/client.ts:489-492 | the timer settles a waiting request, sent or still queued |
| `FunctionsClientModule.FunctionsClient.Close` | packages/client/src/client.ts:171-185 | the queue is dropped and everything waiting is failed |
| `FunctionsClientModule.FunctionsClient.SetAuth` | packages/client/src/client.ts:195-221 | a new connection is made and nothing else changes; requests are stranded exactly when something waiting is not queued |
| `FunctionsClientModule.SettleBooks` | packages/client/src/client.ts:283-289 | settling one request keeps every id waiting or settled, and settled once |

## Left out

- The merge of segments in `packages/engine/src/lsm/store.ts` and `packages/engine/src/lsm/segment.ts`:
  the store is taken by its contract, a sorted map per keyspace with range scans and whole-batch commits.
- Flushing, compaction, garbage collection and the manifest mirror: foreign storage behind that contract.
- Keyspace names and subscription keys are pairs, not the joined strings `table:index` and `conn/sub`.
- Text is a sequence of Unicode scalar values, so a lone surrogate is not represented.
- Cursors arrive decoded; base64 and JSON are not modelled.
- `MemtableModule.Memtable.Upsert`: the cost of an entry is a parameter, since only its sum matters.
- `EngineModule.Engine.Mutate`: the size test of a row is a parameter, since it counts JSON characters.
- `Hub.ReactiveHub.OnCommit`: value subscriptions are not modelled, so every query is paginated.
- The hub keeps each subscription's baseline as a value; `Ivm.Subscription` is proved equal to the
  functions the hub uses, and aliasing between the two objects is not modelled.
- `Sync.MirrorIsFresh`: one subscription, its own channel each way, queries that do not throw, and windows
  served by an index or, through the fallback, with no empty side but past an edge; isolation between
  subscriptions is `Hub.FannedExactly`.
- `Sync.RefreshedKeeps`: the interleaving of a commit with the awaits inside one evaluation is not modelled;
  the code does not guard against it.
- Hibernation and the rebuilding of subscriptions after it.
- `Durable.AckedSurvive`: a persist plans, with the signatures of that moment and an index read then or before,
  in one step, and a put is durable when it is visible. Chunks that are no JSON make the original's load
  throw; here they decode to something.
- The alarm loop, its retries and back-off, and the listing of due jobs.
- `Worker.CrashExactly`: whether the bodies can go stale before another crash; without answers that can change
  the condition is sufficient only.
- `Worker.ServedWasCurrent`: request size limits, hashing of the cache key and identity are taken as given.
- Authentication, service keys, identity caching and error masking.
- Reference counts, grace timers, preloads and the IndexedDB cache of the client, and its value stores.
- `FunctionsClientModule.FunctionsClient.OnOpen`: subscription frames are sent but not recorded, since only requests must be sent once.
- Schema inference, routing, code generation, plugins, the command line and the React packages.
