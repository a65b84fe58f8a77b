/** What the partition keeps across restarts: memtables in chunks with content signatures,
    written by one atomic put and cleaned up after it (packages/server/src/partition.ts). */
module Durable {
  import opened Wrappers
  import opened Store
  import Values

  /** Text by its UTF-16 code units. */
  type CodeUnit = bv16
  type Text = seq<CodeUnit>

  datatype Manifest = Manifest(lsn: nat, segments: seq<string>)

  datatype DurableState = DurableState(manifest: Manifest, memtables: map<string, seq<Entry>>)

  datatype Job = Job(at: int, name: string, args: string, attempts: nat)

  datatype StorageKey = ManifestKey | MemIndexKey | MemKey(ks: string, i: nat) | JobKey(id: nat)

  datatype StorageValue =
    | ManifestValue(manifest: Manifest)
    | IndexValue(index: map<string, nat>)
    | ChunkValue(text: Text)
    | JobValue(job: Job)

  type Storage = map<StorageKey, StorageValue>

  /** How entries are written as JSON and read back. */
  datatype Codec = Codec(encode: seq<Entry> -> Text, decode: Text -> seq<Entry>)

  ghost predicate Faithful(codec: Codec) {
    forall es: seq<Entry> :: codec.decode(codec.encode(es)) == es && codec.encode(es) != []
  }

  // ---------------------------------------------------------------- signatures

  datatype Signature = Signature(length: nat, hash: bv32)

  const OFFSET_BASIS: bv32 := 0x811c9dc5

  /** `Math.imul` by the prime wraps at 32 bits. */
  function Spread(h: bv32): bv32 {
    h * 0x01000193
  }

  /** One round: exclusive or, then the multiplication. */
  function Round(h: bv32, c: CodeUnit): bv32 {
    Spread(h ^ (c as bv32))
  }

  function Fnv1a(t: Text): bv32 {
    if t == [] then OFFSET_BASIS else Round(Fnv1a(t[..|t| - 1]), t[|t| - 1])
  }

  function Sign(t: Text): Signature {
    Signature(|t|, Fnv1a(t))
  }

  method ComputeFnv1a(t: Text) returns (h: bv32)
    ensures h == Fnv1a(t)
  {
    hide Round;
    h := OFFSET_BASIS;
    for i := 0 to |t|
      invariant h == Fnv1a(t[..i])
    {
      assert t[..i + 1][..i] == t[..i];
      h := Round(h, t[i]);
    }
    assert t[..|t|] == t;
  }

  // ---------------------------------------------------------------- what signatures tell apart

  /** Multiplying by the inverse of the prime modulo 2^32. */
  function Unspread(h: bv32): bv32 {
    h * 0x359c449b
  }

  lemma Multiplied(h: bv32)
    ensures Unspread(h * 0x01000193) == h
  {
    assert h * 0x01000193 * 0x359c449b == h;
  }

  lemma SpreadLosesNothing(h: bv32)
    ensures Unspread(Spread(h)) == h
  {
    hide Unspread;
    Multiplied(h);
  }

  lemma RoundInjective(g: bv32, h: bv32, c: CodeUnit, d: CodeUnit)
    ensures Round(g, c) == Round(h, c) ==> g == h
    ensures Round(g, c) == Round(g, d) ==> c == d
  {
    hide Spread, Unspread;
    SpreadLosesNothing(g ^ (c as bv32));
    SpreadLosesNothing(h ^ (c as bv32));
    SpreadLosesNothing(g ^ (d as bv32));
    Unmixed(g, h, c as bv32);
    Unmixed(c as bv32, d as bv32, g);
    Widened(c, d);
  }

  lemma Unmixed(x: bv32, y: bv32, z: bv32)
    ensures x ^ z == y ^ z ==> x == y
    ensures z ^ x == z ^ y ==> x == y
    ensures x ^ z == z ^ x && y ^ z == z ^ y
  {
  }

  lemma Widened(c: CodeUnit, d: CodeUnit)
    ensures c as bv32 == d as bv32 ==> c == d
  {
  }

  /** Texts with the same ending have one hash exactly when what comes before it does. */
  lemma {:induction false} EndingKeeps(p: Text, p': Text, q: Text)
    ensures Fnv1a(p + q) == Fnv1a(p' + q) <==> Fnv1a(p) == Fnv1a(p')
  {
    hide Round;
    if q == [] {
      assert p + q == p && p' + q == p';
    } else {
      var n := |q| - 1;
      EndingKeeps(p, p', q[..n]);
      assert (p + q)[..|p + q| - 1] == p + q[..n];
      assert (p' + q)[..|p' + q| - 1] == p' + q[..n];
      RoundInjective(Fnv1a(p + q[..n]), Fnv1a(p' + q[..n]), q[n], q[n]);
    }
  }

  /** The texts differ in exactly one code unit. */
  ghost predicate OneUnitApart(t: Text, u: Text) {
    |t| == |u| && exists i :: 0 <= i < |t| && t[i] != u[i] && t[..i] == u[..i] && t[i + 1..] == u[i + 1..]
  }

  lemma Extend(p: Text, c: CodeUnit)
    ensures Fnv1a(p + [c]) == Round(Fnv1a(p), c)
  {
    assert (p + [c])[..|p|] == p;
  }

  lemma OneUnitTells(p: Text, c: CodeUnit, d: CodeUnit, q: Text)
    ensures Fnv1a(p + [c] + q) == Fnv1a(p + [d] + q) <==> c == d
  {
    hide Round, Fnv1a;
    EndingKeeps(p + [c], p + [d], q);
    Extend(p, c);
    Extend(p, d);
    RoundInjective(Fnv1a(p), Fnv1a(p), c, d);
  }

  /** A signature tells apart texts that differ in length or in exactly one code unit. */
  lemma SignatureTells(t: Text, u: Text)
    requires |t| != |u| || OneUnitApart(t, u)
    ensures Sign(t) != Sign(u)
  {
    hide Fnv1a;
    if |t| == |u| {
      var i :| 0 <= i < |t| && t[i] != u[i] && t[..i] == u[..i] && t[i + 1..] == u[i + 1..];
      Parted(t, i);
      Parted(u, i);
      OneUnitTells(t[..i], t[i], u[i], t[i + 1..]);
    }
  }

  lemma Parted(t: Text, i: nat)
    requires i < |t|
    ensures t == t[..i] + [t[i]] + t[i + 1..]
  {
  }

  /** The hashes of the prefixes of a text, round by round. */
  lemma {:induction false} HashedBy(t: Text, hs: seq<bv32>)
    requires |hs| == |t| + 1 && hs[0] == OFFSET_BASIS
    requires forall i :: 0 <= i < |t| ==> Round(hs[i], t[i]) == hs[i + 1]
    ensures Fnv1a(t) == hs[|t|]
  {
    hide Round;
    if t != [] {
      HashedBy(t[..|t| - 1], hs[..|t|]);
    }
  }

  /** Published values of 32-bit FNV-1a: of the empty text, of "a" and of "foobar". */
  lemma KnownHashes()
    ensures Fnv1a([]) == 0x811c9dc5
    ensures Fnv1a([0x61]) == 0xe40c292c
    ensures Fnv1a([0x66, 0x6f, 0x6f, 0x62, 0x61, 0x72]) == 0xbf9cf968
  {
    hide Fnv1a;
    HashedBy([], [0x811c9dc5]);
    HashedBy([0x61], [0x811c9dc5, 0xe40c292c]);
    HashedBy([0x66, 0x6f, 0x6f, 0x62, 0x61, 0x72],
             [0x811c9dc5, 0xe30c2799, 0x6222e842, 0xa9f37ed7, 0x3f5076ef, 0x39aaa18a, 0xbf9cf968]);
  }

  /** "declinate" and "macallums", which share a signature. */
  const DECLINATE: Text := [0x64, 0x65, 0x63, 0x6c, 0x69, 0x6e, 0x61, 0x74, 0x65]
  const MACALLUMS: Text := [0x6d, 0x61, 0x63, 0x61, 0x6c, 0x6c, 0x75, 0x6d, 0x73]

  /** Nothing of 32 bits tells every two texts apart. */
  lemma SignaturesCollide()
    ensures DECLINATE != MACALLUMS && Sign(DECLINATE) == Sign(MACALLUMS)
  {
    hide Fnv1a;
    HashedBy(DECLINATE, [0x811c9dc5, 0xe10c2473, 0x5c1ccea2, 0xc25979d3, 0xb1daa7ad, 0xbf36198c, 0xe42abec6, 0xd64a20e5, 0xe7b14443, 0xe20e47d2]);
    HashedBy(MACALLUMS, [0x811c9dc5, 0xe80c2f78, 0x642e245b, 0xeca30428, 0xcd9fbeeb, 0x3978ee85, 0x626018cb, 0x9b46f31a, 0xe7b14455, 0xe20e47d2]);
    assert DECLINATE[0] != MACALLUMS[0];
  }

  // ---------------------------------------------------------------- chunks

  const CHUNK: nat := 64 * 1024

  function ChunkCount(len: nat): (n: nat)
    ensures n == 0 <==> len == 0
    ensures len <= n * CHUNK && (n > 0 ==> (n - 1) * CHUNK < len)
  {
    (len + (CHUNK - 1)) / CHUNK
  }

  /** `t.slice(i * CHUNK, (i + 1) * CHUNK)`. */
  function Slice(t: Text, i: nat): Text
    requires i * CHUNK <= |t|
  {
    t[i * CHUNK..if (i + 1) * CHUNK <= |t| then (i + 1) * CHUNK else |t|]
  }

  function ChunkAt(s: Storage, ks: string, i: nat): Text {
    if MemKey(ks, i) in s && s[MemKey(ks, i)].ChunkValue? then s[MemKey(ks, i)].text else []
  }

  function Joined(s: Storage, ks: string, n: nat): Text {
    if n == 0 then [] else Joined(s, ks, n - 1) + ChunkAt(s, ks, n - 1)
  }

  /** The chunks of a text, joined, are the text. */
  lemma {:induction false} SlicesJoin(s: Storage, ks: string, t: Text, n: nat)
    requires n <= ChunkCount(|t|)
    requires forall i: nat :: i < n && i * CHUNK <= |t| ==> ChunkAt(s, ks, i) == Slice(t, i)
    ensures Joined(s, ks, n) == t[..if n * CHUNK <= |t| then n * CHUNK else |t|]
  {
    if n == 0 {
    } else {
      SlicesJoin(s, ks, t, n - 1);
      SliceFollows(t, n - 1);
    }
  }

  lemma SliceFollows(t: Text, i: nat)
    requires i < ChunkCount(|t|)
    ensures i * CHUNK < |t|
    ensures t[..i * CHUNK] + Slice(t, i) == t[..if (i + 1) * CHUNK <= |t| then (i + 1) * CHUNK else |t|]
  {
  }

  lemma {:induction false} JoinedSame(s: Storage, s': Storage, ks: string, n: nat)
    requires forall i: nat :: i < n ==> ChunkAt(s', ks, i) == ChunkAt(s, ks, i)
    ensures Joined(s', ks, n) == Joined(s, ks, n)
  {
    if n == 0 {
    } else {
      JoinedSame(s, s', ks, n - 1);
    }
  }

  // ---------------------------------------------------------------- loading

  function IndexIn(s: Storage): map<string, nat> {
    if MemIndexKey in s && s[MemIndexKey].IndexValue? then s[MemIndexKey].index else map[]
  }

  function Count(index: map<string, nat>, ks: string): nat {
    if ks in index then index[ks] else 0
  }

  /** The text stored for a keyspace. */
  function Stored(s: Storage, ks: string): Text {
    Joined(s, ks, Count(IndexIn(s), ks))
  }

  function Load(codec: Codec, s: Storage): Option<DurableState> {
    if ManifestKey in s && s[ManifestKey].ManifestValue? then
      Some(DurableState(s[ManifestKey].manifest,
                        map ks | ks in IndexIn(s) && Stored(s, ks) != [] :: codec.decode(Stored(s, ks))))
    else None
  }

  /** A state without its empty keyspaces. */
  function Trim(d: DurableState): DurableState {
    d.(memtables := map ks | ks in d.memtables && d.memtables[ks] != [] :: d.memtables[ks])
  }

  /** The JSON of a keyspace; an empty one has none. */
  function JsonOf(codec: Codec, d: DurableState, ks: string): Text {
    if ks in d.memtables && d.memtables[ks] != [] then codec.encode(d.memtables[ks]) else []
  }

  /** Every stored text is the JSON of some entries. */
  ghost predicate Encoded(codec: Codec, s: Storage) {
    forall ks :: Stored(s, ks) == [] || exists es :: es != [] && Stored(s, ks) == codec.encode(es)
  }

  lemma LoadedKeyspace(codec: Codec, s: Storage, d: DurableState, ks: string)
    requires Faithful(codec) && Load(codec, s).Some?
    requires Stored(s, ks) == [] || exists es :: es != [] && Stored(s, ks) == codec.encode(es)
    ensures var l, t := Load(codec, s).value.memtables, Trim(d).memtables;
            Stored(s, ks) == JsonOf(codec, d, ks) <==> (ks in l <==> ks in t) && (ks in l && ks in t ==> l[ks] == t[ks])
  {
    assert ks !in IndexIn(s) ==> Stored(s, ks) == [];
    if Stored(s, ks) != [] {
      var es :| es != [] && Stored(s, ks) == codec.encode(es);
      assert codec.decode(codec.encode(es)) == es;
      if ks in d.memtables && d.memtables[ks] != [] {
        assert codec.decode(codec.encode(d.memtables[ks])) == d.memtables[ks];
      }
    }
  }

  /** What is stored recovers a state, up to empty keyspaces, exactly when each keyspace's text
      is the JSON of the state's. */
  lemma LoadExactly(codec: Codec, s: Storage, d: DurableState)
    requires Faithful(codec) && Encoded(codec, s)
    requires ManifestKey in s && s[ManifestKey] == ManifestValue(d.manifest)
    ensures Load(codec, s) == Some(Trim(d)) <==> forall ks :: Stored(s, ks) == JsonOf(codec, d, ks)
  {
    hide Stored, JsonOf, Faithful, Trim;
    var l, t := Load(codec, s).value.memtables, Trim(d).memtables;
    TrimManifest(d);
    forall ks ensures Stored(s, ks) == JsonOf(codec, d, ks) <==> (ks in l <==> ks in t) && (ks in l && ks in t ==> l[ks] == t[ks]) {
      LoadedKeyspace(codec, s, d, ks);
    }
    if forall ks :: Stored(s, ks) == JsonOf(codec, d, ks) {
      assert l == t;
      assert Load(codec, s).value == Trim(d);
    }
    if Load(codec, s) == Some(Trim(d)) {
      forall ks ensures Stored(s, ks) == JsonOf(codec, d, ks) {
        assert l == t;
      }
    }
  }

  lemma TrimManifest(d: DurableState)
    ensures Trim(d).manifest == d.manifest
  {
  }

  // ---------------------------------------------------------------- persisting

  /** What one persist works from: the index and signatures it read, the state dumped, and the
      jobs to schedule. */
  datatype Dump = Dump(codec: Codec, index: map<string, nat>, sigs: map<string, Signature>, state: DurableState, jobs: map<nat, Job>)

  function TextOf(c: Dump, ks: string): Text {
    JsonOf(c.codec, c.state, ks)
  }

  function Chunks(c: Dump, ks: string): nat {
    ChunkCount(|TextOf(c, ks)|)
  }

  function Names(c: Dump): set<string> {
    c.state.memtables.Keys + c.index.Keys
  }

  /** The signature and the chunk count both match, so the keyspace is skipped. */
  predicate Skipped(c: Dump, ks: string) {
    ks in c.sigs && c.sigs[ks] == Sign(TextOf(c, ks)) && Count(c.index, ks) == Chunks(c, ks)
  }

  predicate Rewritten(c: Dump, ks: string) {
    ks in Names(c) && !Skipped(c, ks)
  }

  /** The index once the keyspaces in `done` are looked at. */
  function IndexAfter(c: Dump, done: set<string>): map<string, nat> {
    map ks | ks in Names(c) && (if ks in done && !Skipped(c, ks) then Chunks(c, ks) > 0 else ks in c.index) ::
      if ks in done && !Skipped(c, ks) then Chunks(c, ks) else c.index[ks]
  }

  function PutAt(c: Dump, done: set<string>, key: StorageKey): Option<StorageValue> {
    match key
    case ManifestKey => Some(ManifestValue(c.state.manifest))
    case MemIndexKey => if exists ks :: ks in done && Rewritten(c, ks) then Some(IndexValue(IndexAfter(c, done))) else None
    case MemKey(ks, i) =>
      if ks in done && Rewritten(c, ks) && i < Chunks(c, ks) then Some(ChunkValue(Slice(TextOf(c, ks), i))) else None
    case JobKey(id) => if id in c.jobs then Some(JobValue(c.jobs[id])) else None
  }

  predicate DeletedAt(c: Dump, done: set<string>, key: StorageKey) {
    key.MemKey? && key.ks in done && Rewritten(c, key.ks) && Chunks(c, key.ks) <= key.i < Count(c.index, key.ks)
  }

  /** The signatures staged for the keyspaces rewritten. */
  function PendingSigs(c: Dump): map<string, Signature> {
    map ks | ks in Names(c) && Rewritten(c, ks) :: Sign(TextOf(c, ks))
  }

  function At<K, V>(m: map<K, V>, k: K): Option<V> {
    if k in m then Some(m[k]) else None
  }

  /** Storage after the put has landed. */
  ghost predicate PutLanded(c: Dump, s: Storage, s': Storage) {
    forall key :: At(s', key) == if PutAt(c, Names(c), key).Some? then PutAt(c, Names(c), key) else At(s, key)
  }

  /** Storage after the leftover chunks are deleted. */
  ghost predicate Cleaned(c: Dump, s: Storage, s': Storage) {
    forall key :: At(s', key) == if DeletedAt(c, Names(c), key) then None else At(s, key)
  }

  /** What the loop over the keyspaces builds up. */
  datatype Work = Work(
    puts: map<StorageKey, StorageValue>,
    deletes: set<StorageKey>,
    index: map<string, nat>,
    pending: map<string, Signature>,
    changed: bool)

  ghost predicate Collected(c: Dump, done: set<string>, w: Work) {
    && done <= Names(c)
    && (forall key :: At(w.puts, key) == if key.MemKey? || key.ManifestKey? then PutAt(c, done, key) else None)
    && (forall key :: key in w.deletes <==> DeletedAt(c, done, key))
    && w.index == IndexAfter(c, done)
    && w.pending == (map ks | ks in done && Rewritten(c, ks) :: Sign(TextOf(c, ks)))
    && (w.changed <==> exists ks :: ks in done && Rewritten(c, ks))
  }

  class DurableStore {
    const codec: Codec
    var storage: Storage
    /** What was last written per keyspace; lost with the process. */
    var sigs: map<string, Signature>

    constructor (codec: Codec, storage: Storage)
      ensures this.codec == codec && this.storage == storage && sigs == map[]
    {
      this.codec := codec;
      this.storage := storage;
      sigs := map[];
    }

    ghost function DumpOf(state: DurableState, jobs: map<nat, Job>): Dump
      reads this
    {
      Dump(codec, IndexIn(storage), sigs, state, jobs)
    }

    /** Rebuild the state from the manifest and the chunks. */
    method LoadState() returns (r: Option<DurableState>)
      ensures r == Load(codec, storage)
    {
      if !(ManifestKey in storage && storage[ManifestKey].ManifestValue?) {
        return None;
      }
      var index := IndexIn(storage);
      var memtables: map<string, seq<Entry>> := map[];
      var todo := index.Keys;
      while todo != {}
        invariant todo <= index.Keys
        invariant memtables == map ks | ks in index && ks !in todo && Stored(storage, ks) != [] :: codec.decode(Stored(storage, ks))
        decreases |todo|
      {
        var ks :| ks in todo;
        var text := JoinChunks(ks, index[ks]);
        if text != [] {
          memtables := memtables[ks := codec.decode(text)];
        }
        todo := todo - {ks};
      }
      assert memtables == Load(codec, storage).value.memtables;
      r := Some(DurableState(storage[ManifestKey].manifest, memtables));
    }

    method JoinChunks(ks: string, n: nat) returns (text: Text)
      ensures text == Joined(storage, ks, n)
    {
      text := [];
      for i := 0 to n
        invariant text == Joined(storage, ks, i)
      {
        text := text + ChunkAt(storage, ks, i);
      }
    }

    /** The chunks to write and to delete for one rewritten keyspace. */
    static method Rewrite(ghost c: Dump, ghost done: set<string>, ks: string, text: Text, was: nat,
                          puts: map<StorageKey, StorageValue>, deletes: set<StorageKey>)
      returns (puts': map<StorageKey, StorageValue>, deletes': set<StorageKey>)
      requires Rewritten(c, ks) && ks !in done && text == TextOf(c, ks) && was == Count(c.index, ks)
      requires forall key: StorageKey :: key.MemKey? ==> At(puts, key) == PutAt(c, done, key)
      requires forall key :: key in deletes <==> DeletedAt(c, done, key)
      ensures forall key: StorageKey :: At(puts', key) == if key.MemKey? then PutAt(c, done + {ks}, key) else At(puts, key)
      ensures forall key :: key in deletes' <==> DeletedAt(c, done + {ks}, key)
    {
      puts', deletes' := puts, deletes;
      var n := ChunkCount(|text|);
      for i := 0 to n
        invariant forall key: StorageKey :: At(puts', key) ==
                    if key.MemKey? && key.ks == ks && key.i < i then Some(ChunkValue(Slice(text, key.i))) else At(puts, key)
      {
        puts' := puts'[MemKey(ks, i) := ChunkValue(Slice(text, i))];
      }
      var i := n;
      while i < was
        invariant n <= i && (i <= was || i == n)
        invariant forall key :: key in deletes' <==> key in deletes || (key.MemKey? && key.ks == ks && n <= key.i < i)
      {
        deletes' := deletes' + {MemKey(ks, i)};
        i := i + 1;
      }
    }

    /** Look at one keyspace: skip it, or rewrite it and note its new count and signature. */
    method Visit(ghost c: Dump, ghost done: set<string>, state: DurableState, ks: string, w: Work) returns (w': Work)
      requires c.codec == codec && c.state == state && c.sigs == sigs
      requires Collected(c, done, w) && ks in Names(c) && ks !in done
      ensures Collected(c, done + {ks}, w')
    {
      hide JsonOf, Sign, ChunkCount, Slice, PutAt, DeletedAt;
      var text := JsonOf(codec, state, ks);
      assert Count(w.index, ks) == Count(c.index, ks);
      if ks in sigs && sigs[ks] == Sign(text) && Count(w.index, ks) == ChunkCount(|text|) {
        SkipCollects(c, done, w, ks);
        return w;
      }
      var n := ChunkCount(|text|);
      var puts, deletes := Rewrite(c, done, ks, text, Count(w.index, ks), w.puts, w.deletes);
      w' := Work(puts, deletes, if n == 0 then w.index - {ks} else w.index[ks := n], w.pending[ks := Sign(text)], true);
      RewriteCollects(c, done, w, ks, w');
    }

    /** Look at every keyspace dumped now or persisted before. */
    method Collect(ghost c: Dump, state: DurableState) returns (w: Work)
      requires c.codec == codec && c.state == state && c.sigs == sigs && c.index == IndexIn(storage)
      ensures Collected(c, Names(c), w)
    {
      hide Collected, JsonOf, IndexIn, Rewritten;
      var index := IndexIn(storage);
      w := Work(map[ManifestKey := ManifestValue(state.manifest)], {}, index, map[], false);
      var todo := state.memtables.Keys + index.Keys;
      NothingCollected(c);
      assert Names(c) - todo == {};
      while todo != {}
        invariant todo <= Names(c)
        invariant Collected(c, Names(c) - todo, w)
        decreases |todo|
      {
        var ks :| ks in todo;
        OneDone(Names(c), todo, ks);
        w := Visit(c, Names(c) - todo, state, ks, w);
        todo := todo - {ks};
      }
      assert Names(c) - todo == Names(c);
    }

    /** One atomic put of the manifest, the changed keyspaces, the index and the jobs; then the
        leftover chunks are deleted; only then are the signatures taken over. */
    method Persist(state: DurableState, jobs: map<nat, Job>)
      modifies this
      ensures var c := old(DumpOf(state, jobs)); exists mid :: PutLanded(c, old(storage), mid) && Cleaned(c, mid, storage)
      ensures sigs == old(sigs) + PendingSigs(old(DumpOf(state, jobs)))
    {
      hide Collected, PutLanded, Cleaned, PendingSigs, PutAt, IndexIn, Names;
      ghost var c := DumpOf(state, jobs);
      var w := Collect(c, state);
      var puts := if w.changed then w.puts[MemIndexKey := IndexValue(w.index)] else w.puts;
      puts := PutJobs(puts, jobs);
      AllPut(c, w, puts);
      AllLanded(c, w, puts, storage);
      PendingCollected(c, w);
      storage := storage + puts;
      ghost var mid := storage;
      if w.deletes != {} {
        storage := storage - w.deletes;
      }
      assert PutLanded(c, old(storage), mid) && Cleaned(c, mid, storage);
      sigs := sigs + w.pending;
    }

    static method PutJobs(puts: map<StorageKey, StorageValue>, jobs: map<nat, Job>) returns (r: map<StorageKey, StorageValue>)
      ensures forall key :: At(r, key) == if key.JobKey? && key.id in jobs then Some(JobValue(jobs[key.id])) else At(puts, key)
    {
      r := puts;
      var todo := jobs.Keys;
      while todo != {}
        invariant todo <= jobs.Keys
        invariant forall key :: At(r, key) ==
                    if key.JobKey? && key.id in jobs && key.id !in todo then Some(JobValue(jobs[key.id])) else At(puts, key)
        decreases |todo|
      {
        var id :| id in todo;
        r := r[JobKey(id) := JobValue(jobs[id])];
        todo := todo - {id};
      }
    }

    method CompleteJob(id: nat)
      modifies this`storage
      ensures storage == old(storage) - {JobKey(id)}
    {
      storage := storage - {JobKey(id)};
    }

    method RetryJob(id: nat, attempts: nat, at: int)
      modifies this`storage
      ensures storage == if JobKey(id) in old(storage) && old(storage)[JobKey(id)].JobValue?
                         then old(storage)[JobKey(id) := JobValue(old(storage)[JobKey(id)].job.(attempts := attempts, at := at))]
                         else old(storage)
    {
      if JobKey(id) in storage && storage[JobKey(id)].JobValue? {
        storage := storage[JobKey(id) := JobValue(storage[JobKey(id)].job.(attempts := attempts, at := at))];
      }
    }
  }

  // ---------------------------------------------------------------- what the loop has collected

  lemma NothingCollected(c: Dump)
    ensures Collected(c, {}, Work(map[ManifestKey := ManifestValue(c.state.manifest)], {}, c.index, map[], false))
  {
    assert IndexAfter(c, {}) == c.index;
  }

  lemma SkipCollects(c: Dump, done: set<string>, w: Work, ks: string)
    requires Collected(c, done, w) && Skipped(c, ks) && ks in Names(c)
    ensures Collected(c, done + {ks}, w)
  {
    hide JsonOf, Sign, ChunkCount, Slice;
    assert forall k :: k in done + {ks} && Rewritten(c, k) <==> k in done && Rewritten(c, k);
    assert IndexAfter(c, done + {ks}) == IndexAfter(c, done);
    forall key: StorageKey | key.MemKey? ensures PutAt(c, done + {ks}, key) == PutAt(c, done, key) {
    }
    assert (map k | k in done + {ks} && Rewritten(c, k) :: Sign(TextOf(c, k))) == (map k | k in done && Rewritten(c, k) :: Sign(TextOf(c, k)));
  }

  lemma OneDone<T>(all: set<T>, todo: set<T>, x: T)
    requires x in todo && todo <= all
    ensures all - (todo - {x}) == all - todo + {x} && x !in all - todo
  {
  }

  lemma RewriteCollects(c: Dump, done: set<string>, w: Work, ks: string, w': Work)
    requires Collected(c, done, w) && Rewritten(c, ks) && ks !in done
    requires forall key: StorageKey :: At(w'.puts, key) == if key.MemKey? then PutAt(c, done + {ks}, key) else At(w.puts, key)
    requires forall key :: key in w'.deletes <==> DeletedAt(c, done + {ks}, key)
    requires w'.index == if Chunks(c, ks) == 0 then w.index - {ks} else w.index[ks := Chunks(c, ks)]
    requires w'.pending == w.pending[ks := Sign(TextOf(c, ks))] && w'.changed
    ensures Collected(c, done + {ks}, w')
  {
    hide JsonOf, Sign, ChunkCount, Slice, IndexAfter, DeletedAt, Skipped;
    IndexStep(c, done, ks);
  }

  lemma IndexStep(c: Dump, done: set<string>, ks: string)
    requires Rewritten(c, ks) && ks !in done
    ensures IndexAfter(c, done + {ks}) ==
            if Chunks(c, ks) == 0 then IndexAfter(c, done) - {ks} else IndexAfter(c, done)[ks := Chunks(c, ks)]
  {
    hide JsonOf, Sign, ChunkCount, Slice;
  }

  lemma AllPut(c: Dump, w: Work, puts: map<StorageKey, StorageValue>)
    requires Collected(c, Names(c), w)
    requires forall key :: At(puts, key) ==
               if key.JobKey? && key.id in c.jobs then Some(JobValue(c.jobs[key.id]))
               else At(if w.changed then w.puts[MemIndexKey := IndexValue(w.index)] else w.puts, key)
    ensures forall key :: At(puts, key) == PutAt(c, Names(c), key)
  {
    hide JsonOf, Sign, ChunkCount, Slice, IndexAfter, Rewritten;
  }

  lemma AllLanded(c: Dump, w: Work, puts: map<StorageKey, StorageValue>, s: Storage)
    requires Collected(c, Names(c), w) && forall key :: At(puts, key) == PutAt(c, Names(c), key)
    ensures PutLanded(c, s, s + puts) && Cleaned(c, s + puts, s + puts - w.deletes)
    ensures w.deletes == {} ==> s + puts - w.deletes == s + puts
  {
    hide PutAt, DeletedAt, Rewritten, IndexAfter, Sign, TextOf;
  }

  lemma PendingCollected(c: Dump, w: Work)
    requires Collected(c, Names(c), w)
    ensures w.pending == PendingSigs(c)
  {
    hide JsonOf, Sign, ChunkCount, Slice, IndexAfter;
  }

  // ---------------------------------------------------------------- one persist

  lemma StoredSame(s: Storage, s': Storage, ks: string)
    requires Count(IndexIn(s'), ks) == Count(IndexIn(s), ks)
    requires forall i: nat :: i < Count(IndexIn(s), ks) ==> At(s', MemKey(ks, i)) == At(s, MemKey(ks, i))
    ensures Stored(s', ks) == Stored(s, ks)
  {
    forall i: nat | i < Count(IndexIn(s), ks) ensures ChunkAt(s', ks, i) == ChunkAt(s, ks, i) {
      assert At(s', MemKey(ks, i)) == At(s, MemKey(ks, i));
    }
    JoinedSame(s, s', ks, Count(IndexIn(s), ks));
  }

  /** The index by which the keyspaces a put does not write are read after it: its own, when
      it writes any keyspace. */
  function KeptIndex(c: Dump, s: Storage): map<string, nat> {
    if exists ks :: ks in Names(c) && Rewritten(c, ks) then c.index else IndexIn(s)
  }

  /** The text a put leaves a keyspace it does not write. */
  function Kept(c: Dump, s: Storage, ks: string): Text {
    Joined(s, ks, Count(KeptIndex(c, s), ks))
  }

  lemma CountAfter(c: Dump, s: Storage, s': Storage, ks: string)
    requires PutLanded(c, s, s')
    ensures Count(IndexIn(s'), ks) == if Rewritten(c, ks) then Chunks(c, ks) else Count(KeptIndex(c, s), ks)
  {
    hide JsonOf, Sign, ChunkCount;
    assert At(s', MemIndexKey) == if PutAt(c, Names(c), MemIndexKey).Some? then PutAt(c, Names(c), MemIndexKey) else At(s, MemIndexKey);
  }

  /** The put leaves a rewritten keyspace with the text dumped, and of any other what the index
      it wrote counts. */
  lemma StoredAfter(c: Dump, s: Storage, s': Storage, ks: string)
    requires PutLanded(c, s, s')
    ensures Stored(s', ks) == if Rewritten(c, ks) then TextOf(c, ks) else Kept(c, s, ks)
  {
    hide JsonOf, Sign, IndexIn, Skipped, KeptIndex;
    CountAfter(c, s, s', ks);
    if Rewritten(c, ks) {
      var text, n := TextOf(c, ks), Chunks(c, ks);
      forall i: nat | i < n ensures ChunkAt(s', ks, i) == Slice(text, i) {
        assert At(s', MemKey(ks, i)) == PutAt(c, Names(c), MemKey(ks, i));
      }
      SlicesJoin(s', ks, text, n);
      assert text[..|text|] == text;
    } else {
      var n := Count(KeptIndex(c, s), ks);
      forall i: nat | i < n ensures ChunkAt(s', ks, i) == ChunkAt(s, ks, i) {
        assert PutAt(c, Names(c), MemKey(ks, i)).None? && At(s', MemKey(ks, i)) == At(s, MemKey(ks, i));
      }
      JoinedSame(s, s', ks, n);
    }
  }

  /** Every keyspace the put does not write is left with the text dumped. */
  ghost predicate SkipsRightly(c: Dump, s: Storage) {
    forall ks :: Rewritten(c, ks) || Kept(c, s, ks) == TextOf(c, ks)
  }

  /** Whatever index and signatures a persist worked from, and whatever landed meanwhile, its
      put leaves the state dumped exactly when it skipped rightly. */
  lemma PutExactly(c: Dump, s: Storage, s': Storage)
    requires PutLanded(c, s, s')
    ensures (forall ks :: Stored(s', ks) == TextOf(c, ks)) <==> SkipsRightly(c, s)
  {
    hide PutLanded, Stored, Kept, JsonOf, Rewritten;
    forall ks ensures Stored(s', ks) == if Rewritten(c, ks) then TextOf(c, ks) else Kept(c, s, ks) {
      StoredAfter(c, s, s', ks);
    }
  }

  /** With the index of the storage it lands on, a put skips rightly when the keyspaces it skips
      hold their text. */
  lemma FreshSkips(c: Dump, s: Storage)
    requires c.index == IndexIn(s)
    ensures SkipsRightly(c, s) <==> forall ks :: Skipped(c, ks) ==> Stored(s, ks) == TextOf(c, ks)
  {
    hide JsonOf, IndexIn, Sign, ChunkCount;
    forall ks ensures Kept(c, s, ks) == Stored(s, ks) && (ks !in Names(c) ==> Stored(s, ks) == [] == TextOf(c, ks)) {
      if ks !in Names(c) {
        UnnamedEmpty(c, s, ks);
      }
    }
  }

  lemma UnnamedEmpty(c: Dump, s: Storage, ks: string)
    requires c.index == IndexIn(s) && ks !in Names(c)
    ensures Stored(s, ks) == [] == TextOf(c, ks)
  {
  }

  /** No deleted chunk is counted, unless it is missing already. */
  ghost predicate DeletesSafely(c: Dump, s: Storage, ks: string) {
    forall i: nat :: DeletedAt(c, Names(c), MemKey(ks, i)) && i < Count(IndexIn(s), ks) ==> ChunkAt(s, ks, i) == []
  }

  /** The deletions touch chunks alone. */
  lemma CleanedRest(c: Dump, s: Storage, s': Storage)
    requires Cleaned(c, s, s')
    ensures IndexIn(s') == IndexIn(s)
    ensures forall key: StorageKey :: !key.MemKey? ==> At(s', key) == At(s, key)
  {
    assert At(s', MemIndexKey) == At(s, MemIndexKey);
  }

  /** The deletions keep the text of a keyspace exactly when they take no counted chunk of it. */
  lemma CleanExactly(c: Dump, s: Storage, s': Storage, ks: string)
    requires Cleaned(c, s, s')
    ensures IndexIn(s') == IndexIn(s)
    ensures Stored(s', ks) == Stored(s, ks) <==> DeletesSafely(c, s, ks)
  {
    hide DeletedAt;
    CleanedRest(c, s, s');
    var n := Count(IndexIn(s), ks);
    forall i: nat | i < n ensures ChunkAt(s', ks, i) == if DeletedAt(c, Names(c), MemKey(ks, i)) then [] else ChunkAt(s, ks, i) {
      assert At(s', MemKey(ks, i)) == if DeletedAt(c, Names(c), MemKey(ks, i)) then None else At(s, MemKey(ks, i));
    }
    if DeletesSafely(c, s, ks) {
      JoinedSame(s, s', ks, n);
    } else {
      var i: nat :| DeletedAt(c, Names(c), MemKey(ks, i)) && i < n && ChunkAt(s, ks, i) != [];
      ShorterJoin(s, s', ks, n, i);
    }
  }

  lemma {:induction false} ShorterJoin(s: Storage, s': Storage, ks: string, n: nat, i: nat)
    requires forall j: nat :: j < n ==> |ChunkAt(s', ks, j)| <= |ChunkAt(s, ks, j)|
    ensures |Joined(s', ks, n)| <= |Joined(s, ks, n)|
    ensures i < n && ChunkAt(s', ks, i) == [] && ChunkAt(s, ks, i) != [] ==> |Joined(s', ks, n)| < |Joined(s, ks, n)|
  {
    if n == 0 {
    } else {
      ShorterJoin(s, s', ks, n - 1, i);
    }
  }

  /** Right after its own put, the deletions of a persist take no counted chunk. */
  lemma OwnDeletesSafe(c: Dump, s: Storage, s': Storage, ks: string)
    requires PutLanded(c, s, s')
    ensures DeletesSafely(c, s', ks)
  {
    hide JsonOf, Sign, Skipped, IndexIn, KeptIndex;
    CountAfter(c, s, s', ks);
  }

  lemma CleanLoads(codec: Codec, c: Dump, s: Storage, s': Storage, s'': Storage)
    requires PutLanded(c, s, s') && Cleaned(c, s', s'')
    ensures Load(codec, s'') == Load(codec, s')
  {
    hide PutLanded, Stored, IndexIn, DeletesSafely, DeletedAt;
    CleanedRest(c, s', s'');
    assert At(s'', ManifestKey) == At(s', ManifestKey);
    forall ks ensures IndexIn(s'') == IndexIn(s') && Stored(s'', ks) == Stored(s', ks) {
      OwnDeletesSafe(c, s, s', ks);
      CleanExactly(c, s', s'', ks);
    }
    if Load(codec, s').Some? {
      assert Load(codec, s'').value.memtables == Load(codec, s').value.memtables;
    }
  }

  /** What is stored is the JSON of a state, so a load gives it back. */
  lemma TextsLoad(c: Dump, s: Storage)
    requires Faithful(c.codec) && (forall ks :: Stored(s, ks) == TextOf(c, ks))
    requires ManifestKey in s && s[ManifestKey] == ManifestValue(c.state.manifest)
    ensures Load(c.codec, s) == Some(Trim(c.state)) && Encoded(c.codec, s)
  {
    hide Stored, Faithful, Load, Trim, JsonOf;
    forall ks ensures TextOf(c, ks) == [] || exists es :: es != [] && TextOf(c, ks) == c.codec.encode(es) {
      DumpedText(c, ks);
    }
    LoadExactly(c.codec, s, c.state);
    assert forall ks :: TextOf(c, ks) == JsonOf(c.codec, c.state, ks);
  }

  /** Main result on one persist: stopped before its deletes or not, it recovers exactly the
      state dumped, up to empty keyspaces, if and only if every keyspace it skipped really
      held the text dumped. */
  lemma PersistExactly(c: Dump, s: Storage, s': Storage, s'': Storage)
    requires Faithful(c.codec) && Encoded(c.codec, s) && c.index == IndexIn(s)
    requires PutLanded(c, s, s') && Cleaned(c, s', s'')
    ensures Load(c.codec, s'') == Load(c.codec, s')
    ensures Load(c.codec, s') == Some(Trim(c.state)) <==> forall ks :: Skipped(c, ks) ==> Stored(s, ks) == TextOf(c, ks)
    ensures Encoded(c.codec, s')
  {
    hide PutLanded, Cleaned, Stored, IndexIn, PutAt, Rewritten, Skipped, JsonOf, Faithful, Trim, Load, KeptIndex;
    CleanLoads(c.codec, c, s, s', s'');
    PutManifest(c, s, s');
    forall ks
      ensures Stored(s', ks) == (if Rewritten(c, ks) then TextOf(c, ks) else Stored(s, ks))
      ensures TextOf(c, ks) == [] || exists es :: es != [] && TextOf(c, ks) == c.codec.encode(es)
    {
      StoredAfter(c, s, s', ks);
      FreshKeeps(c, s, ks);
      DumpedText(c, ks);
    }
    FreshSkips(c, s);
    PutExactly(c, s, s');
    assert Encoded(c.codec, s');
    LoadExactly(c.codec, s', c.state);
    assert forall ks :: TextOf(c, ks) == JsonOf(c.codec, c.state, ks);
  }

  lemma FreshKeeps(c: Dump, s: Storage, ks: string)
    requires c.index == IndexIn(s)
    ensures Kept(c, s, ks) == Stored(s, ks)
  {
  }

  lemma PutManifest(c: Dump, s: Storage, s': Storage)
    requires PutLanded(c, s, s')
    ensures ManifestKey in s' && s'[ManifestKey] == ManifestValue(c.state.manifest)
  {
    assert At(s', ManifestKey) == PutAt(c, Names(c), ManifestKey);
  }

  lemma DumpedText(c: Dump, ks: string)
    ensures TextOf(c, ks) == [] || exists es :: es != [] && TextOf(c, ks) == c.codec.encode(es)
  {
    if ks in c.state.memtables && c.state.memtables[ks] != [] {
      assert TextOf(c, ks) == c.codec.encode(c.state.memtables[ks]);
    }
  }

  /** The signatures kept are those of the texts stored. */
  ghost predicate SigsTrue(s: Storage, sigs: map<string, Signature>) {
    forall ks :: ks in sigs ==> sigs[ks] == Sign(Stored(s, ks))
  }

  /** Signatures tell the stored texts from the dumped ones wherever they are compared. */
  ghost predicate Separates(c: Dump, s: Storage) {
    forall ks :: Sign(Stored(s, ks)) == Sign(TextOf(c, ks)) ==> Stored(s, ks) == TextOf(c, ks)
  }

  /** With true signatures that separate, a persist recovers exactly the state dumped, whether
      or not its deletions have run. */
  lemma PersistRecovers(c: Dump, s: Storage, s': Storage, s'': Storage)
    requires Faithful(c.codec) && Encoded(c.codec, s) && c.index == IndexIn(s) && SigsTrue(s, c.sigs) && Separates(c, s)
    requires PutLanded(c, s, s') && Cleaned(c, s', s'')
    ensures Load(c.codec, s') == Load(c.codec, s'') == Some(Trim(c.state))
  {
    hide PutLanded, Cleaned, Stored, IndexIn, JsonOf, Sign, ChunkCount, Faithful, Load, Trim;
    PersistExactly(c, s, s', s'');
  }

  /** A keyspace whose text changed in length, or in exactly one code unit, is written whole. */
  lemma ChangedIsWritten(c: Dump, s: Storage, s': Storage, ks: string)
    requires c.index == IndexIn(s) && SigsTrue(s, c.sigs) && PutLanded(c, s, s')
    requires |Stored(s, ks)| != |TextOf(c, ks)| || OneUnitApart(Stored(s, ks), TextOf(c, ks))
    ensures Rewritten(c, ks) && Stored(s', ks) == TextOf(c, ks)
  {
    hide PutLanded, Sign, JsonOf, Stored, IndexIn, Kept;
    SignatureTells(Stored(s, ks), TextOf(c, ks));
    if ks !in Names(c) {
      UnnamedEmpty(c, s, ks);
    }
    StoredAfter(c, s, s', ks);
  }

  /** A keyspace this process has not written yet, or whose chunks the index it read miscounts, is
      written whatever the signatures say. */
  lemma UnsureIsWritten(c: Dump, s: Storage, s': Storage, ks: string)
    requires PutLanded(c, s, s') && ks in Names(c)
    requires ks !in c.sigs || Count(c.index, ks) != ChunkCount(|TextOf(c, ks)|)
    ensures Rewritten(c, ks) && Stored(s', ks) == TextOf(c, ks)
  {
    hide PutLanded, Sign, JsonOf, Stored, IndexIn, Kept;
    StoredAfter(c, s, s', ks);
  }

  /** No chunk written is empty or over 64 KiB, and only the last of a keyspace is less. */
  lemma ChunksBounded(c: Dump, done: set<string>, ks: string, i: nat)
    requires PutAt(c, done, MemKey(ks, i)).Some?
    ensures var v := PutAt(c, done, MemKey(ks, i)).value;
            v.ChunkValue? && 0 < |v.text| <= 65536 && (|v.text| < 65536 ==> PutAt(c, done, MemKey(ks, i + 1)).None?)
  {
    hide JsonOf, Skipped;
    SliceFollows(TextOf(c, ks), i);
  }

  /** Once a persist has settled, a keyspace whose text has not changed since is left alone by
      the next. */
  lemma UnchangedIsSkipped(c: Dump, s: Storage, s': Storage, s'': Storage, next: Dump, ks: string)
    requires c.index == IndexIn(s) && PutLanded(c, s, s') && Cleaned(c, s', s'')
    requires next.index == IndexIn(s'') && next.sigs == c.sigs + PendingSigs(c)
    requires ks in Names(c) && TextOf(next, ks) == TextOf(c, ks)
    ensures !Rewritten(next, ks)
    ensures forall done, i: nat :: PutAt(next, done, MemKey(ks, i)) == None && !DeletedAt(next, done, MemKey(ks, i))
  {
    hide PutLanded, Cleaned, Sign, JsonOf, IndexIn;
    CountAfter(c, s, s', ks);
    CleanedRest(c, s', s'');
    FreshIndex(c, s);
  }

  /** A stored chunk the index does not count. */
  predicate Stray(s: Storage, ks: string, i: nat) {
    MemKey(ks, i) in s && Count(IndexIn(s), ks) <= i
  }

  /** What a persist leaves behind: once it has settled, a chunk is stray exactly when it was so
      before and the text written since does not reach it. */
  lemma StrayExactly(c: Dump, s: Storage, s': Storage, s'': Storage, ks: string, i: nat)
    requires c.index == IndexIn(s) && PutLanded(c, s, s') && Cleaned(c, s', s'')
    ensures Stray(s'', ks, i) <==> Stray(s, ks, i) && !(Rewritten(c, ks) && i < Chunks(c, ks))
  {
    hide PutLanded, Cleaned, JsonOf, Sign, Skipped, IndexIn;
    CountAfter(c, s, s', ks);
    CleanedRest(c, s', s'');
    FreshIndex(c, s);
    assert At(s', MemKey(ks, i)) == if PutAt(c, Names(c), MemKey(ks, i)).Some? then PutAt(c, Names(c), MemKey(ks, i)) else At(s, MemKey(ks, i)) by {
      LandedAt(c, s, s', MemKey(ks, i));
    }
    CleanedAt(c, s', s'', MemKey(ks, i));
  }

  lemma LandedAt(c: Dump, s: Storage, s': Storage, key: StorageKey)
    requires PutLanded(c, s, s')
    ensures At(s', key) == if PutAt(c, Names(c), key).Some? then PutAt(c, Names(c), key) else At(s, key)
  {
  }

  lemma CleanedAt(c: Dump, s: Storage, s': Storage, key: StorageKey)
    requires Cleaned(c, s, s')
    ensures At(s', key) == if DeletedAt(c, Names(c), key) then None else At(s, key)
  {
  }

  // ---------------------------------------------------------------- two persists that overlap

  /** Main result on two persists whose puts land in start order, the second begun before the
      first has deleted: what is stored in the end is the second state if and only if every
      keyspace the second skipped held its text and the late deletions take no chunk counted.
      Then a load recovers that state; if what is stored is JSON at all, only then. */
  lemma OverlapExactly(c1: Dump, c2: Dump, s0: Storage, s1: Storage, s2: Storage, s3: Storage)
    requires PutLanded(c1, s0, s1) && c2.index == IndexIn(s1) && PutLanded(c2, s1, s2) && Cleaned(c1, s2, s3)
    ensures var right := (forall ks :: Skipped(c2, ks) ==> Stored(s1, ks) == TextOf(c2, ks)) &&
                         (forall ks, i :: DeletedAt(c1, Names(c1), MemKey(ks, i)) ==> Count(IndexIn(s2), ks) <= i);
            && ((forall ks :: Stored(s3, ks) == TextOf(c2, ks)) <==> right)
            && (Faithful(c2.codec) && right ==> Load(c2.codec, s3) == Some(Trim(c2.state)))
            && (Faithful(c2.codec) && Encoded(c2.codec, s3) ==> (Load(c2.codec, s3) == Some(Trim(c2.state)) <==> right))
  {
    hide PutLanded, Cleaned, Stored, IndexIn, JsonOf, Skipped, Rewritten, DeletedAt, Faithful, Load, Trim, Encoded,
      Kept;
    forall ks
      ensures Stored(s3, ks) == TextOf(c2, ks) <==>
              Stored(s2, ks) == TextOf(c2, ks) && forall i :: DeletedAt(c1, Names(c1), MemKey(ks, i)) ==> Count(IndexIn(s2), ks) <= i
    {
      OverlapKeyspace(c1, c2, s0, s1, s2, s3, ks);
    }
    PutExactly(c2, s1, s2);
    FreshSkips(c2, s1);
    assert ManifestKey in s3 && s3[ManifestKey] == ManifestValue(c2.state.manifest) by {
      PutManifest(c2, s1, s2);
      CleanedRest(c1, s2, s3);
      assert At(s3, ManifestKey) == At(s2, ManifestKey);
    }
    if Faithful(c2.codec) {
      if forall ks :: Stored(s3, ks) == TextOf(c2, ks) {
        TextsLoad(c2, s3);
      }
      if Encoded(c2.codec, s3) {
        LoadExactly(c2.codec, s3, c2.state);
        assert forall ks :: TextOf(c2, ks) == JsonOf(c2.codec, c2.state, ks);
      }
    }
  }

  /** One keyspace of it: the late deletions can only harm a keyspace the second put wrote. */
  lemma OverlapKeyspace(c1: Dump, c2: Dump, s0: Storage, s1: Storage, s2: Storage, s3: Storage, ks: string)
    requires PutLanded(c1, s0, s1) && c2.index == IndexIn(s1) && PutLanded(c2, s1, s2) && Cleaned(c1, s2, s3)
    ensures Stored(s3, ks) == TextOf(c2, ks) <==>
            Stored(s2, ks) == TextOf(c2, ks) && forall i :: DeletedAt(c1, Names(c1), MemKey(ks, i)) ==> Count(IndexIn(s2), ks) <= i
  {
    hide PutLanded, Cleaned, Stored, IndexIn, JsonOf, Skipped, KeptIndex, Kept;
    CleanExactly(c1, s2, s3, ks);
    CountAfter(c2, s1, s2, ks);
    CountAfter(c1, s0, s1, ks);
    StoredAfter(c2, s1, s2, ks);
    if Rewritten(c2, ks) {
      forall i: nat | i < Chunks(c2, ks) ensures ChunkAt(s2, ks, i) != [] {
        ChunkNotEmpty(c2, s1, s2, ks, i);
      }
    } else {
      FreshIndex(c2, s1);
    }
  }

  lemma FreshIndex(c: Dump, s: Storage)
    requires c.index == IndexIn(s)
    ensures KeptIndex(c, s) == IndexIn(s)
  {
  }

  lemma ChunkNotEmpty(c: Dump, s: Storage, s': Storage, ks: string, i: nat)
    requires PutLanded(c, s, s') && Rewritten(c, ks) && i < Chunks(c, ks)
    ensures ChunkAt(s', ks, i) != []
  {
    assert At(s', MemKey(ks, i)) == PutAt(c, Names(c), MemKey(ks, i));
    SliceFollows(TextOf(c, ks), i);
  }

  // ---------------------------------------------------------------- runs

  /** A commit in memory: the state it leaves and the jobs it schedules. */
  datatype Commit = Commit(state: DurableState, jobs: map<nat, Job>)

  datatype Stage = Planned | Put | Clean | Settled

  datatype Active = Active(dump: Dump, stage: Stage)

  /** The partition: its commits since the start, oldest first; the persists begun since the
      last crash in start order, `active[i]` for commit `base + 1 + i`; the last commit whose
      put has landed; and what is durable. */
  datatype Partition = Partition(
    history: seq<Commit>,
    base: nat,
    active: seq<Active>,
    landed: nat,
    storage: Storage,
    sigs: map<string, Signature>,
    acked: set<nat>,
    completed: set<nat>)

  /** A persist begins with the index it has read, maybe before others landed. */
  datatype Step =
    | Write(commit: Commit)
    | Begin(index: map<string, nat>)
    | Land
    | Sweep(i: nat)
    | Settle(i: nat)
    | Ack(n: nat)
    | Complete(id: nat)
    | Retry(id: nat, job: Job)
    | Crash

  ghost predicate Used(p: Partition, id: nat) {
    id in p.completed || exists n :: 0 <= n < |p.history| && id in p.history[n].jobs
  }

  function Begun(p: Partition): nat {
    p.base + |p.active|
  }

  /** The persist of commit `n` has returned. */
  predicate Returned(p: Partition, n: nat) {
    n <= p.base || (n <= Begun(p) && p.active[n - p.base - 1].stage == Settled)
  }

  function Staged(p: Partition, i: nat, stage: Stage): Partition
    requires i < |p.active|
  {
    p.(active := p.active[i := p.active[i].(stage := stage)])
  }

  /** Puts land in start order; deletes and signatures follow each at its own time. */
  ghost predicate Next(codec: Codec, a: Partition, step: Step, b: Partition) {
    match step
    case Write(commit) =>
      (forall id :: id in commit.jobs ==> !Used(a, id)) && b == a.(history := a.history + [commit])
    case Begin(index) =>
      Begun(a) + 1 < |a.history| && b == a.(active := a.active + [Active(DumpNext(codec, a, index), Planned)])
    case Land =>
      && a.base <= a.landed < Begun(a) && PutLanded(a.active[a.landed - a.base].dump, a.storage, b.storage)
      && b == Staged(a, a.landed - a.base, Put).(landed := a.landed + 1, storage := b.storage)
    case Sweep(i) =>
      && i < |a.active| && a.active[i].stage == Put && Cleaned(a.active[i].dump, a.storage, b.storage)
      && b == Staged(a, i, Clean).(storage := b.storage)
    case Settle(i) =>
      && i < |a.active| && a.active[i].stage == Clean
      && b == Staged(a, i, Settled).(sigs := a.sigs + PendingSigs(a.active[i].dump))
    case Ack(n) => Returned(a, n) && b == a.(acked := a.acked + {n})
    case Complete(id) => JobKey(id) in a.storage && b == a.(storage := a.storage - {JobKey(id)}, completed := a.completed + {id})
    case Retry(id, job) => JobKey(id) in a.storage && b == a.(storage := a.storage[JobKey(id) := JobValue(job)])
    case Crash =>
      a.landed < |a.history| &&
      b == a.(history := a.history[..a.landed + 1], base := a.landed, active := [], sigs := map[])
  }

  function DumpNext(codec: Codec, p: Partition, index: map<string, nat>): Dump
    requires Begun(p) + 1 < |p.history|
  {
    var c := p.history[Begun(p) + 1];
    Dump(codec, index, p.sigs, c.state, c.jobs)
  }

  ghost predicate Start(p: Partition) {
    && |p.history| == 1 && p.history[0].jobs == map[] && p.history[0].state.memtables == map[]
    && p.base == p.landed == 0 && p.active == []
    && p.storage == map[] && p.sigs == map[] && p.acked == {} && p.completed == {}
  }

  ghost predicate IsRun(codec: Codec, states: seq<Partition>, steps: seq<Step>) {
    && |states| == |steps| + 1 && Start(states[0])
    && forall i :: 0 <= i < |steps| ==> Next(codec, states[i], steps[i], states[i + 1])
  }

  /** The keyspaces stored are those of the last landed commit. */
  ghost predicate HoldsLanded(codec: Codec, p: Partition) {
    p.landed < |p.history| && forall ks :: Stored(p.storage, ks) == JsonOf(codec, p.history[p.landed].state, ks)
  }

  /** The jobs stored are those of the landed commits that are not completed. */
  ghost predicate JobsExact(p: Partition)
    requires p.landed < |p.history|
  {
    && (forall id :: JobKey(id) in p.storage <==>
                     id !in p.completed && exists n :: 0 <= n <= p.landed && id in p.history[n].jobs)
    && (forall n, id :: p.landed < n < |p.history| && id in p.history[n].jobs ==> id !in p.completed)
    && (forall m, n, id :: 0 <= m < n < |p.history| && id in p.history[m].jobs ==> id !in p.history[n].jobs)
  }

  ghost predicate DumpsTrue(codec: Codec, p: Partition) {
    && p.base <= p.landed <= Begun(p) < |p.history|
    && forall i :: 0 <= i < |p.active| ==>
         var c, n := p.active[i].dump, p.base + 1 + i;
         && c.codec == codec && c.state == p.history[n].state && c.jobs == p.history[n].jobs
         && (p.active[i].stage == Planned <==> p.landed < n)
  }

  /** What every step keeps, however the persists overlap. */
  ghost predicate Books(codec: Codec, p: Partition) {
    && DumpsTrue(codec, p) && JobsExact(p)
    && (forall n :: n in p.acked ==> n <= p.landed)
    && (if p.landed == 0 then ManifestKey !in p.storage
        else ManifestKey in p.storage && p.storage[ManifestKey] == ManifestValue(p.history[p.landed].state.manifest))
  }

  /** A put skips rightly, and deletions take no chunk counted. */
  ghost predicate Sound(a: Partition, step: Step) {
    match step
    case Land => a.base <= a.landed < Begun(a) ==> SkipsRightly(a.active[a.landed - a.base].dump, a.storage)
    case Sweep(i) => i < |a.active| ==> forall ks :: DeletesSafely(a.active[i].dump, a.storage, ks)
    case _ => true
  }

  /** Changes to jobs alone leave every keyspace as it was. */
  lemma JobsApart(s: Storage, s': Storage)
    requires forall key: StorageKey :: !key.JobKey? ==> At(s', key) == At(s, key)
    ensures IndexIn(s') == IndexIn(s) && forall ks :: Stored(s', ks) == Stored(s, ks)
    ensures ManifestKey in s' <==> ManifestKey in s
    ensures ManifestKey in s ==> s'[ManifestKey] == s[ManifestKey]
  {
    hide Stored;
    assert At(s', MemIndexKey) == At(s, MemIndexKey) && At(s', ManifestKey) == At(s, ManifestKey);
    forall ks ensures Stored(s', ks) == Stored(s, ks) {
      StoredSame(s, s', ks);
    }
  }

  lemma StartKeeps(codec: Codec, p: Partition)
    requires Start(p)
    ensures Books(codec, p) && HoldsLanded(codec, p)
  {
    hide Sign;
  }

  lemma SameJobs(a: Partition, b: Partition)
    requires a.landed < |a.history| && JobsExact(a)
    requires b.history == a.history && b.landed == a.landed && b.completed == a.completed
    requires forall id :: JobKey(id) in b.storage <==> JobKey(id) in a.storage
    ensures JobsExact(b)
  {
  }

  /** The jobs of the commit land with it. */
  lemma LandedJobs(a: Partition, b: Partition, c: Dump)
    requires a.landed + 1 < |a.history| && JobsExact(a)
    requires b.history == a.history && b.landed == a.landed + 1 && b.completed == a.completed
    requires c.jobs == a.history[a.landed + 1].jobs && PutLanded(c, a.storage, b.storage)
    ensures JobsExact(b)
  {
    forall id ensures JobKey(id) in b.storage <==> JobKey(id) in a.storage || id in a.history[b.landed].jobs {
      assert At(b.storage, JobKey(id)) == if PutAt(c, Names(c), JobKey(id)).Some? then PutAt(c, Names(c), JobKey(id)) else At(a.storage, JobKey(id));
    }
    forall id ensures JobKey(id) in b.storage <==> id !in b.completed && exists n :: 0 <= n <= b.landed && id in b.history[n].jobs {
      if id in a.history[b.landed].jobs {
        assert id in b.history[b.landed].jobs;
      }
    }
  }

  lemma LandBooks(codec: Codec, a: Partition, b: Partition)
    requires Books(codec, a) && Next(codec, a, Land, b)
    ensures Books(codec, b)
  {
    hide PutLanded, PutAt, JobsExact;
    var c := a.active[a.landed - a.base].dump;
    PutManifest(c, a.storage, b.storage);
    LandedJobs(a, b, c);
  }

  lemma SweepBooks(codec: Codec, a: Partition, i: nat, b: Partition)
    requires Books(codec, a) && Next(codec, a, Sweep(i), b)
    ensures Books(codec, b)
  {
    hide Cleaned, JobsExact;
    CleanedRest(a.active[i].dump, a.storage, b.storage);
    assert At(b.storage, ManifestKey) == At(a.storage, ManifestKey);
    forall id ensures JobKey(id) in b.storage <==> JobKey(id) in a.storage {
      assert At(b.storage, JobKey(id)) == At(a.storage, JobKey(id));
    }
    SameJobs(a, b);
  }

  lemma BeginBooks(codec: Codec, a: Partition, index: map<string, nat>, b: Partition)
    requires Books(codec, a) && Next(codec, a, Begin(index), b)
    ensures Books(codec, b)
  {
    hide JobsExact;
    SameJobs(a, b);
    forall i | 0 <= i < |a.active| ensures b.active[i] == a.active[i] {
    }
  }

  /** Steps that leave the persists and the commits as they are. */
  lemma QuietBooks(codec: Codec, a: Partition, b: Partition)
    requires Books(codec, a) && b.history == a.history && b.landed == a.landed && JobsExact(b)
    requires b.base == a.base && |b.active| == |a.active|
    requires forall i :: 0 <= i < |a.active| ==>
               b.active[i].dump == a.active[i].dump && (b.active[i].stage == Planned <==> a.active[i].stage == Planned)
    requires forall n :: n in b.acked ==> n in a.acked || n <= a.landed
    requires At(b.storage, ManifestKey) == At(a.storage, ManifestKey)
    ensures Books(codec, b)
  {
    hide JobsExact;
  }

  lemma SettleBooks(codec: Codec, a: Partition, i: nat, b: Partition)
    requires Books(codec, a) && Next(codec, a, Settle(i), b)
    ensures Books(codec, b)
  {
    hide JobsExact, PendingSigs;
    SameJobs(a, b);
    QuietBooks(codec, a, b);
  }

  lemma AckBooks(codec: Codec, a: Partition, n: nat, b: Partition)
    requires Books(codec, a) && Next(codec, a, Ack(n), b)
    ensures Books(codec, b)
  {
    hide JobsExact;
    SameJobs(a, b);
    QuietBooks(codec, a, b);
  }

  lemma WriteBooks(codec: Codec, a: Partition, commit: Commit, b: Partition)
    requires Books(codec, a) && Next(codec, a, Write(commit), b)
    ensures Books(codec, b)
  {
    hide JobsExact;
    assert forall n :: 0 <= n < |a.history| ==> b.history[n] == a.history[n];
    WrittenJobs(a, commit, b);
  }

  lemma WrittenJobs(a: Partition, commit: Commit, b: Partition)
    requires a.landed < |a.history| && JobsExact(a) && forall id :: id in commit.jobs ==> !Used(a, id)
    requires b == a.(history := a.history + [commit])
    ensures JobsExact(b)
  {
    assert forall n :: 0 <= n < |a.history| ==> b.history[n] == a.history[n];
    forall id ensures JobKey(id) in b.storage <==> id !in b.completed && exists n :: 0 <= n <= b.landed && id in b.history[n].jobs {
      assert (exists n :: 0 <= n <= b.landed && id in b.history[n].jobs) <==> exists n :: 0 <= n <= a.landed && id in a.history[n].jobs;
    }
  }

  lemma CompleteBooks(codec: Codec, a: Partition, id: nat, b: Partition)
    requires Books(codec, a) && Next(codec, a, Complete(id), b)
    ensures Books(codec, b)
  {
    assert JobsExact(b);
    QuietBooks(codec, a, b);
  }

  lemma RetryBooks(codec: Codec, a: Partition, id: nat, job: Job, b: Partition)
    requires Books(codec, a) && Next(codec, a, Retry(id, job), b)
    ensures Books(codec, b)
  {
    hide JobsExact;
    SameJobs(a, b);
    QuietBooks(codec, a, b);
  }

  lemma CrashBooks(codec: Codec, a: Partition, b: Partition)
    requires Books(codec, a) && Next(codec, a, Crash, b)
    ensures Books(codec, b)
  {
    assert forall n :: 0 <= n <= a.landed ==> b.history[n] == a.history[n];
  }

  lemma BooksKept(codec: Codec, a: Partition, step: Step, b: Partition)
    requires Books(codec, a) && Next(codec, a, step, b)
    ensures Books(codec, b)
  {
    hide Books, Next;
    match step
    case Land => LandBooks(codec, a, b);
    case Sweep(i) => SweepBooks(codec, a, i, b);
    case Begin(index) => BeginBooks(codec, a, index, b);
    case Settle(i) => SettleBooks(codec, a, i, b);
    case Ack(n) => AckBooks(codec, a, n, b);
    case Write(commit) => WriteBooks(codec, a, commit, b);
    case Complete(id) => CompleteBooks(codec, a, id, b);
    case Retry(id, job) => RetryBooks(codec, a, id, job, b);
    case Crash => CrashBooks(codec, a, b);
  }

  /** One step from storage that holds the last landed commit leaves storage that does exactly
      when it is sound. */
  lemma StepExactly(codec: Codec, a: Partition, step: Step, b: Partition)
    requires Books(codec, a) && Next(codec, a, step, b) && HoldsLanded(codec, a)
    ensures HoldsLanded(codec, b) <==> Sound(a, step)
  {
    hide PutLanded, Cleaned, Stored, IndexIn, JsonOf, JobsExact, SkipsRightly, DeletesSafely;
    match step
    case Land =>
      var c := a.active[a.landed - a.base].dump;
      PutExactly(c, a.storage, b.storage);
      assert forall ks :: TextOf(c, ks) == JsonOf(codec, b.history[b.landed].state, ks);
    case Sweep(i) =>
      var c := a.active[i].dump;
      forall ks ensures Stored(b.storage, ks) == Stored(a.storage, ks) <==> DeletesSafely(c, a.storage, ks) {
        CleanExactly(c, a.storage, b.storage, ks);
      }
    case Complete(_) => JobsApart(a.storage, b.storage);
    case Retry(_, _) => JobsApart(a.storage, b.storage);
    case _ =>
  }

  lemma {:induction false} RunBooks(codec: Codec, states: seq<Partition>, steps: seq<Step>, i: nat)
    requires IsRun(codec, states, steps) && i < |states|
    ensures Books(codec, states[i])
  {
    hide Books, Next, Start;
    if i == 0 {
      StartKeeps(codec, states[0]);
    } else {
      RunBooks(codec, states, steps, i - 1);
      BooksKept(codec, states[i - 1], steps[i - 1], states[i]);
    }
  }

  lemma {:induction false} SoundHolds(codec: Codec, states: seq<Partition>, steps: seq<Step>, i: nat)
    requires IsRun(codec, states, steps) && i < |states|
    requires forall k :: 0 <= k < i ==> Sound(states[k], steps[k])
    ensures HoldsLanded(codec, states[i])
  {
    hide Books, Next, Start, HoldsLanded, Sound;
    if i == 0 {
      StartKeeps(codec, states[0]);
    } else {
      SoundHolds(codec, states, steps, i - 1);
      RunBooks(codec, states, steps, i - 1);
      StepExactly(codec, states[i - 1], steps[i - 1], states[i]);
    }
  }

  /** Main result on runs of any overlap: what is stored is the last landed commit at every
      moment if and only if every put skipped rightly and no deletions took a chunk counted. */
  lemma RunExactly(codec: Codec, states: seq<Partition>, steps: seq<Step>)
    requires IsRun(codec, states, steps)
    ensures (forall i :: 0 <= i < |states| ==> HoldsLanded(codec, states[i])) <==>
            (forall i :: 0 <= i < |steps| ==> Sound(states[i], steps[i]))
  {
    hide Books, Next, Start, HoldsLanded, Sound;
    if forall i :: 0 <= i < |states| ==> HoldsLanded(codec, states[i]) {
      forall i | 0 <= i < |steps| ensures Sound(states[i], steps[i]) {
        RunBooks(codec, states, steps, i);
        StepExactly(codec, states[i], steps[i], states[i + 1]);
      }
    }
    if forall i :: 0 <= i < |steps| ==> Sound(states[i], steps[i]) {
      forall i | 0 <= i < |states| ensures HoldsLanded(codec, states[i]) {
        SoundHolds(codec, states, steps, i);
      }
    }
  }

  /** Main result on recovery: as long as the steps so far were sound, what a load would recover
      is the state after some commit no earlier than any acknowledged one, and the jobs it finds
      are exactly those of that commit and the ones before it that are not completed. */
  lemma AckedSurvive(codec: Codec, states: seq<Partition>, steps: seq<Step>, i: nat)
    requires Faithful(codec) && IsRun(codec, states, steps) && i < |states|
    requires forall k :: 0 <= k < i ==> Sound(states[k], steps[k])
    ensures var p := states[i];
            && p.landed < |p.history|
            && (forall n :: n in p.acked ==> n <= p.landed)
            && Load(codec, p.storage) == (if p.landed == 0 then None else Some(Trim(p.history[p.landed].state)))
            && (forall id :: JobKey(id) in p.storage <==>
                             id !in p.completed && exists n :: 0 <= n <= p.landed && id in p.history[n].jobs)
  {
    hide Stored, JsonOf, Faithful, Next, Start, Trim, Sound;
    RunBooks(codec, states, steps, i);
    SoundHolds(codec, states, steps, i);
    var p := states[i];
    if p.landed > 0 {
      TextsLoad(Dump(codec, map[], map[], p.history[p.landed].state, map[]), p.storage);
    }
  }

  // ---------------------------------------------------------------- schedules that are sound

  /** The signature tells two texts apart if they differ. */
  ghost predicate TextsDiffer(x: Text, y: Text) {
    Sign(x) == Sign(y) ==> x == y
  }

  /** Signatures separate the texts of any two states of the run. */
  ghost predicate HistorySeparates(codec: Codec, history: seq<Commit>) {
    forall i, j, ks :: 0 <= i < |history| && 0 <= j < |history| ==>
      TextsDiffer(JsonOf(codec, history[i].state, ks), JsonOf(codec, history[j].state, ks))
  }

  predicate Unsettled(p: Partition, i: nat) {
    i < |p.active| && p.active[i].stage != Settled
  }

  predicate Writes(p: Partition, i: nat, ks: string) {
    i < |p.active| && Rewritten(p.active[i].dump, ks)
  }

  /** No unsettled persist writes the keyspace. */
  ghost predicate Quiet(p: Partition, ks: string) {
    forall i: nat :: Unsettled(p, i) ==> !Writes(p, i, ks)
  }

  /** A persist that begins while others are unsettled writes every keyspace they write, and has
      read the counts of the rest as they are; it settles before any later one that shares a
      keyspace with it; and it deletes before the next put lands, or nothing counted. */
  ghost predicate Orderly(codec: Codec, a: Partition, step: Step) {
    match step
    case Begin(index) =>
      Begun(a) + 1 < |a.history| ==>
        forall ks :: !Rewritten(DumpNext(codec, a, index), ks) ==> Count(index, ks) == Count(IndexIn(a.storage), ks) && Quiet(a, ks)
    case Sweep(i) => i < |a.active| ==> a.landed == a.base + 1 + i || forall ks :: DeletesSafely(a.active[i].dump, a.storage, ks)
    case Settle(i) => forall j: nat, ks :: i < j < |a.active| && a.active[j].stage == Settled && Writes(a, i, ks) ==> !Writes(a, j, ks)
    case _ => true
  }

  /** A keyspace a persist does not write has not changed in its commit. */
  ghost predicate SkipsSame(codec: Codec, p: Partition)
    requires DumpsTrue(codec, p)
  {
    forall i: nat, ks :: i < |p.active| && !Writes(p, i, ks) ==>
      JsonOf(codec, p.history[p.base + 1 + i].state, ks) == JsonOf(codec, p.history[p.base + i].state, ks)
  }

  /** A persist still to land has read the count of every keyspace it does not write, and writes
      what those ahead of it write. */
  ghost predicate PlansFit(p: Partition) {
    && (forall i: nat, ks :: i < |p.active| && p.active[i].stage == Planned && !Writes(p, i, ks) ==>
          Count(p.active[i].dump.index, ks) == Count(IndexIn(p.storage), ks))
    && (forall i: nat, j: nat, ks ::
          i < j < |p.active| && p.active[i].stage == Planned && p.active[j].stage == Planned && Writes(p, i, ks) ==> Writes(p, j, ks))
  }

  /** The signatures of keyspaces that no unsettled persist writes are those of the stored texts. */
  ghost predicate SigsFit(p: Partition) {
    forall ks :: ks in p.sigs && Quiet(p, ks) ==> p.sigs[ks] == Sign(Stored(p.storage, ks))
  }

  /** The deletions of the last put to land take no counted chunk. */
  ghost predicate LastSafe(p: Partition) {
    forall i: nat, ks :: i < |p.active| && p.base + 1 + i == p.landed && p.active[i].stage == Put ==>
      DeletesSafely(p.active[i].dump, p.storage, ks)
  }

  ghost predicate Tidy(codec: Codec, p: Partition) {
    && Books(codec, p) && HoldsLanded(codec, p)
    && SkipsSame(codec, p) && PlansFit(p) && SigsFit(p) && LastSafe(p)
  }

  /** A keyspace that no persist between two commits writes is the same in both. */
  lemma {:induction false} UnwrittenSame(codec: Codec, p: Partition, lo: nat, hi: nat, ks: string)
    requires DumpsTrue(codec, p) && SkipsSame(codec, p) && p.base <= lo <= hi <= Begun(p)
    requires forall i: nat :: lo <= p.base + i < hi ==> !Writes(p, i, ks)
    ensures JsonOf(codec, p.history[lo].state, ks) == JsonOf(codec, p.history[hi].state, ks)
    decreases hi - lo
  {
    hide JsonOf, Writes;
    if lo == hi {
    } else {
      UnwrittenSame(codec, p, lo, hi - 1, ks);
      assert !Writes(p, hi - 1 - p.base, ks);
    }
  }

  /** What a persist that begins by the rules leaves alone is what the commit before it had. */
  lemma BeginSkips(codec: Codec, a: Partition, index: map<string, nat>, ks: string)
    requires Tidy(codec, a) && HistorySeparates(codec, a.history) && Begun(a) + 1 < |a.history|
    requires Orderly(codec, a, Begin(index)) && !Rewritten(DumpNext(codec, a, index), ks)
    ensures JsonOf(codec, a.history[Begun(a) + 1].state, ks) == JsonOf(codec, a.history[Begun(a)].state, ks)
  {
    hide JsonOf, Sign, IndexIn, JobsExact, PlansFit, LastSafe, Writes, HistorySeparates, SkipsSame;
    var c := DumpNext(codec, a, index);
    assert TextOf(c, ks) == JsonOf(codec, a.history[Begun(a) + 1].state, ks);
    UnwrittenSame(codec, a, a.landed, Begun(a), ks);
    if ks in Names(c) {
      assert c.sigs[ks] == Sign(Stored(a.storage, ks));
      Separated(codec, a.history, a.landed, Begun(a) + 1, ks);
    } else {
      NoNameNoText(c, ks);
      assert Stored(a.storage, ks) == [];
    }
  }

  lemma Separated(codec: Codec, history: seq<Commit>, i: nat, j: nat, ks: string)
    requires HistorySeparates(codec, history) && i < |history| && j < |history|
    requires Sign(JsonOf(codec, history[i].state, ks)) == Sign(JsonOf(codec, history[j].state, ks))
    ensures JsonOf(codec, history[i].state, ks) == JsonOf(codec, history[j].state, ks)
  {
    hide JsonOf, Sign;
    assert TextsDiffer(JsonOf(codec, history[i].state, ks), JsonOf(codec, history[j].state, ks));
  }

  lemma NoNameNoText(c: Dump, ks: string)
    requires ks !in Names(c)
    ensures TextOf(c, ks) == [] && Count(c.index, ks) == 0
  {
  }

  /** The persists at work are the same ones, at stages that agree on settled. */
  lemma SamePersists(a: Partition, b: Partition)
    requires |b.active| == |a.active|
    requires forall i: nat :: i < |a.active| ==>
               b.active[i].dump == a.active[i].dump && (b.active[i].stage == Settled <==> a.active[i].stage == Settled)
    ensures forall i: nat, ks :: Writes(b, i, ks) == Writes(a, i, ks) && Unsettled(b, i) == Unsettled(a, i)
    ensures forall ks :: Quiet(b, ks) == Quiet(a, ks)
  {
    hide Rewritten;
    forall i: nat, ks ensures Writes(b, i, ks) == Writes(a, i, ks) && Unsettled(b, i) == Unsettled(a, i) {
      if i < |a.active| {
        assert b.active[i].dump == a.active[i].dump;
      }
    }
  }

  lemma TidyBegin(codec: Codec, a: Partition, index: map<string, nat>, b: Partition)
    requires Tidy(codec, a) && HistorySeparates(codec, a.history)
    requires Next(codec, a, Begin(index), b) && Orderly(codec, a, Begin(index)) && Books(codec, b)
    ensures Tidy(codec, b)
  {
    hide JsonOf, Sign, IndexIn, Stored, JobsExact, Rewritten, DeletesSafely, HistorySeparates, Joined, Kept;
    var n := |a.active|;
    forall i: nat, ks | i < n ensures Writes(b, i, ks) == Writes(a, i, ks) && Unsettled(b, i) == Unsettled(a, i) {
      assert b.active[i] == a.active[i];
    }
    forall ks | !Writes(b, n, ks)
      ensures JsonOf(codec, b.history[b.base + 1 + n].state, ks) == JsonOf(codec, b.history[b.base + n].state, ks)
    {
      BeginSkips(codec, a, index, ks);
    }
    forall i: nat, ks | i < n && a.active[i].stage == Planned && Writes(a, i, ks) ensures Writes(b, n, ks) {
      assert Unsettled(a, i);
    }
    forall ks | Quiet(b, ks) ensures Quiet(a, ks) {
      forall i: nat | Unsettled(a, i) ensures !Writes(a, i, ks) {
        assert Unsettled(b, i);
      }
    }
  }

  /** The next put to land skips rightly. */
  lemma LandSound(codec: Codec, a: Partition)
    requires Tidy(codec, a) && a.landed < Begun(a)
    ensures Sound(a, Land)
  {
    hide JsonOf, Sign, JobsExact, Rewritten, SigsFit, LastSafe, IndexIn;
    var i := a.landed - a.base;
    var c := a.active[i].dump;
    forall ks ensures Rewritten(c, ks) || Kept(c, a.storage, ks) == TextOf(c, ks) {
      if !Rewritten(c, ks) {
        assert !Writes(a, i, ks);
      }
    }
  }

  lemma TidyLand(codec: Codec, a: Partition, b: Partition)
    requires Tidy(codec, a) && Next(codec, a, Land, b) && Books(codec, b) && HoldsLanded(codec, b)
    ensures Tidy(codec, b)
  {
    hide JsonOf, Sign, JobsExact, IndexIn, Stored, Rewritten, PutLanded, DeletesSafely;
    var i := a.landed - a.base;
    var c := a.active[i].dump;
    SamePersists(a, b);
    forall ks
      ensures DeletesSafely(c, b.storage, ks)
      ensures !Writes(a, i, ks) ==>
                Stored(b.storage, ks) == Stored(a.storage, ks) && Count(IndexIn(b.storage), ks) == Count(IndexIn(a.storage), ks)
    {
      OwnDeletesSafe(c, a.storage, b.storage, ks);
      if !Writes(a, i, ks) {
        UnwrittenLands(c, a.storage, b.storage, ks);
      }
    }
    assert Unsettled(a, i);
  }

  /** A put leaves a keyspace it does not write alone, if it has read its count as it is. */
  lemma UnwrittenLands(c: Dump, s: Storage, s': Storage, ks: string)
    requires PutLanded(c, s, s') && !Rewritten(c, ks) && Count(c.index, ks) == Count(IndexIn(s), ks)
    ensures Stored(s', ks) == Stored(s, ks) && Count(IndexIn(s'), ks) == Count(IndexIn(s), ks)
  {
    hide PutLanded, JsonOf, Rewritten, IndexIn;
    CountAfter(c, s, s', ks);
    StoredAfter(c, s, s', ks);
  }

  /** Deletions leave the counts and every text they are safe for. */
  lemma SweepSound(codec: Codec, a: Partition, i: nat)
    requires Tidy(codec, a) && Orderly(codec, a, Sweep(i)) && i < |a.active| && a.active[i].stage == Put
    ensures Sound(a, Sweep(i))
  {
    hide JsonOf, Sign, JobsExact, Rewritten, SigsFit, PlansFit, SkipsSame, IndexIn, DeletesSafely;
  }

  lemma TidySweep(codec: Codec, a: Partition, i: nat, b: Partition)
    requires Tidy(codec, a) && Next(codec, a, Sweep(i), b) && Sound(a, Sweep(i)) && Books(codec, b) && HoldsLanded(codec, b)
    ensures Tidy(codec, b)
  {
    hide JsonOf, Sign, JobsExact, IndexIn, Stored, Rewritten, Cleaned, DeletesSafely;
    var c := a.active[i].dump;
    SamePersists(a, b);
    CleanedRest(c, a.storage, b.storage);
    forall ks ensures Stored(b.storage, ks) == Stored(a.storage, ks) && Quiet(b, ks) == Quiet(a, ks) {
      CleanExactly(c, a.storage, b.storage, ks);
    }
    forall j: nat, ks | j < |b.active| && b.base + 1 + j == b.landed && b.active[j].stage == Put
      ensures DeletesSafely(b.active[j].dump, b.storage, ks)
    {
      StillSafe(c, b.active[j].dump, a.storage, b.storage, ks);
    }
  }

  lemma StillSafe(c: Dump, other: Dump, s: Storage, s': Storage, ks: string)
    requires Cleaned(c, s, s') && DeletesSafely(other, s, ks)
    ensures DeletesSafely(other, s', ks)
  {
    hide DeletedAt;
    CleanedRest(c, s, s');
    forall i: nat ensures ChunkAt(s', ks, i) == [] || ChunkAt(s', ks, i) == ChunkAt(s, ks, i) {
      assert At(s', MemKey(ks, i)) == None || At(s', MemKey(ks, i)) == At(s, MemKey(ks, i));
    }
  }

  /** What does not depend on signatures, after a step that only moves jobs, adds commits or
      takes a persist from one stage to another. */
  lemma PlansKept(codec: Codec, a: Partition, b: Partition)
    requires Tidy(codec, a) && Books(codec, b) && a.history <= b.history && b.base == a.base && b.landed == a.landed
    requires |b.active| == |a.active| && forall i: nat :: i < |a.active| ==>
               b.active[i].dump == a.active[i].dump && (b.active[i].stage == Put ==> a.active[i].stage == Put)
    requires forall key: StorageKey :: !key.JobKey? ==> At(b.storage, key) == At(a.storage, key)
    ensures SkipsSame(codec, b) && PlansFit(b) && LastSafe(b)
  {
    hide JsonOf, JobsExact, IndexIn, Stored, Rewritten, DeletesSafely, SigsFit;
    forall i: nat, ks ensures Writes(b, i, ks) == Writes(a, i, ks) {
      assert i < |a.active| ==> b.active[i].dump == a.active[i].dump;
    }
    JobsApart(a.storage, b.storage);
    forall c, ks | DeletesSafely(c, a.storage, ks) ensures DeletesSafely(c, b.storage, ks) {
      SafeApart(c, a.storage, b.storage, ks);
    }
  }

  lemma TidySettle(codec: Codec, a: Partition, i: nat, b: Partition)
    requires Tidy(codec, a) && Next(codec, a, Settle(i), b) && Orderly(codec, a, Settle(i)) && Books(codec, b) && HoldsLanded(codec, b)
    ensures Tidy(codec, b)
  {
    hide JsonOf, Sign, Books, HoldsLanded, SkipsSame, PlansFit, LastSafe, Quiet, Stored, PendingSigs, Orderly;
    forall ks | ks in b.sigs && Quiet(b, ks) ensures b.sigs[ks] == Sign(Stored(b.storage, ks)) {
      SettledSign(codec, a, i, b, ks);
    }
    assert SigsFit(b);
    PlansKept(codec, a, b);
  }

  lemma SettledSign(codec: Codec, a: Partition, i: nat, b: Partition, ks: string)
    requires Tidy(codec, a) && Next(codec, a, Settle(i), b) && Orderly(codec, a, Settle(i))
    requires ks in b.sigs && Quiet(b, ks)
    ensures b.sigs[ks] == Sign(Stored(b.storage, ks))
  {
    hide JsonOf, Sign, JobsExact, IndexIn, Stored, Rewritten, SkipsSame, PlansFit, LastSafe;
    PendingSign(a.active[i].dump, ks);
    assert forall j: nat :: j != i && Unsettled(a, j) ==> Unsettled(b, j) && Writes(b, j, ks) == Writes(a, j, ks);
    if Writes(a, i, ks) {
      UnwrittenSame(codec, a, a.base + 1 + i, a.landed, ks);
    } else {
      assert Quiet(a, ks);
    }
  }

  lemma PendingSign(c: Dump, ks: string)
    ensures ks in PendingSigs(c) <==> Rewritten(c, ks)
    ensures ks in PendingSigs(c) ==> PendingSigs(c)[ks] == Sign(TextOf(c, ks))
  {
  }

  lemma TidyOther(codec: Codec, a: Partition, step: Step, b: Partition)
    requires Tidy(codec, a) && Next(codec, a, step, b) && Books(codec, b) && HoldsLanded(codec, b)
    requires step.Write? || step.Ack? || step.Complete? || step.Retry?
    ensures Tidy(codec, b)
  {
    hide JsonOf, Sign, Books, HoldsLanded, SkipsSame, PlansFit, LastSafe, Quiet, Stored, IndexIn;
    SamePersists(a, b);
    JobsApart(a.storage, b.storage);
    PlansKept(codec, a, b);
  }

  lemma TidyCrash(codec: Codec, a: Partition, b: Partition)
    requires Next(codec, a, Crash, b) && Books(codec, b) && HoldsLanded(codec, b)
    ensures Tidy(codec, b)
  {
    hide Books, HoldsLanded;
    assert DumpsTrue(codec, b) by {
      BooksDumps(codec, b);
    }
  }

  lemma BooksDumps(codec: Codec, p: Partition)
    requires Books(codec, p)
    ensures DumpsTrue(codec, p)
  {
  }

  lemma SafeApart(c: Dump, s: Storage, s': Storage, ks: string)
    requires DeletesSafely(c, s, ks) && forall key: StorageKey :: !key.JobKey? ==> At(s', key) == At(s, key)
    ensures DeletesSafely(c, s', ks)
  {
    hide DeletedAt;
    JobsApart(s, s');
    forall i: nat ensures ChunkAt(s', ks, i) == ChunkAt(s, ks, i) {
      assert At(s', MemKey(ks, i)) == At(s, MemKey(ks, i));
    }
  }

  lemma OrderlyStep(codec: Codec, a: Partition, step: Step, b: Partition)
    requires Tidy(codec, a) && HistorySeparates(codec, a.history) && Next(codec, a, step, b) && Orderly(codec, a, step)
    ensures Sound(a, step) && Tidy(codec, b)
  {
    hide Tidy, Books, HoldsLanded, HistorySeparates, Next, Orderly, Sound, SkipsSame, PlansFit, SigsFit, LastSafe;
    assert Books(codec, a) && HoldsLanded(codec, a) by {
      TidyParts(codec, a);
    }
    BooksKept(codec, a, step, b);
    assert Sound(a, step) by {
      TidySound(codec, a, step, b);
    }
    StepExactly(codec, a, step, b);
    match step
    case Begin(index) => TidyBegin(codec, a, index, b);
    case Land => TidyLand(codec, a, b);
    case Sweep(i) => TidySweep(codec, a, i, b);
    case Settle(i) => TidySettle(codec, a, i, b);
    case Crash => TidyCrash(codec, a, b);
    case _ => TidyOther(codec, a, step, b);
  }

  lemma TidyParts(codec: Codec, p: Partition)
    requires Tidy(codec, p)
    ensures Books(codec, p) && HoldsLanded(codec, p)
  {
  }

  lemma TidySound(codec: Codec, a: Partition, step: Step, b: Partition)
    requires Tidy(codec, a) && Next(codec, a, step, b) && Orderly(codec, a, step)
    ensures Sound(a, step)
  {
    hide Tidy, SkipsRightly, DeletesSafely, PutLanded, Cleaned;
    match step
    case Land => LandSound(codec, a);
    case Sweep(i) => SweepSound(codec, a, i);
    case _ =>
  }

  /** Main result on schedules: when signatures separate the texts of the run, the steps of an
      orderly run are sound, so what was acknowledged survives. */
  lemma {:induction false} OrderlyIsSound(codec: Codec, states: seq<Partition>, steps: seq<Step>, i: nat)
    requires IsRun(codec, states, steps) && i < |states|
    requires forall k :: 0 <= k < i ==> HistorySeparates(codec, states[k].history) && Orderly(codec, states[k], steps[k])
    ensures Tidy(codec, states[i]) && forall k :: 0 <= k < i ==> Sound(states[k], steps[k])
  {
    hide Tidy, HistorySeparates, Next, Orderly, Sound;
    if i == 0 {
      assert Tidy(codec, states[0]) by {
        StartTidy(codec, states[0]);
      }
    } else {
      OrderlyIsSound(codec, states, steps, i - 1);
      OrderlyStep(codec, states[i - 1], steps[i - 1], states[i]);
    }
  }

  lemma StartTidy(codec: Codec, p: Partition)
    requires Start(p)
    ensures Tidy(codec, p)
  {
    StartKeeps(codec, p);
  }

  /** One persist at a time: each begins from the storage as it is, after those before it settled. */
  ghost predicate Serial(a: Partition, step: Step) {
    step.Begin? ==> step.index == IndexIn(a.storage) && forall i: nat :: !Unsettled(a, i)
  }

  ghost predicate OneAtWork(p: Partition) {
    forall i: nat :: i + 1 < |p.active| ==> p.active[i].stage == Settled
  }

  lemma SerialStep(codec: Codec, a: Partition, step: Step, b: Partition)
    requires Books(codec, a) && OneAtWork(a) && Next(codec, a, step, b) && Serial(a, step)
    ensures Orderly(codec, a, step) && OneAtWork(b)
  {
    hide JsonOf, Sign, JobsExact, IndexIn, Rewritten, DeletesSafely, PutLanded, Cleaned, PendingSigs;
    forall i: nat | i + 1 < |b.active| ensures b.active[i].stage == Settled {
      assert step.Begin? ==> !Unsettled(a, i);
    }
  }

  /** A serial run is orderly. */
  lemma {:induction false} SerialIsOrderly(codec: Codec, states: seq<Partition>, steps: seq<Step>, i: nat)
    requires IsRun(codec, states, steps) && i < |states|
    requires forall k :: 0 <= k < i ==> Serial(states[k], steps[k])
    ensures OneAtWork(states[i]) && forall k :: 0 <= k < i ==> Orderly(codec, states[k], steps[k])
  {
    hide Books, Next, Orderly, Serial;
    if i == 0 {
    } else {
      SerialIsOrderly(codec, states, steps, i - 1);
      RunBooks(codec, states, steps, i - 1);
      SerialStep(codec, states[i - 1], steps[i - 1], states[i]);
    }
  }

  // ---------------------------------------------------------------- overlaps that lose a commit

  /** A persist that plans before the one ahead of it has settled compares with signatures that
      are out of date: a keyspace that went back to its old text is skipped, and keeps the text
      in between. */
  lemma OverlapSkipsRevert(c1: Dump, c2: Dump, s0: Storage, s1: Storage, s2: Storage, ks: string)
    requires PutLanded(c1, s0, s1) && Rewritten(c1, ks)
    requires c2.index == IndexIn(s1) && PutLanded(c2, s1, s2) && c2.sigs == c1.sigs
    requires ks in c1.sigs && c1.sigs[ks] == Sign(TextOf(c2, ks)) && Chunks(c2, ks) == Chunks(c1, ks)
    ensures Stored(s2, ks) == TextOf(c1, ks)
  {
    hide PutLanded, Stored, JsonOf, Sign, ChunkCount, IndexIn, KeptIndex;
    StoredAfter(c1, s0, s1, ks);
    CountAfter(c1, s0, s1, ks);
    StoredAfter(c2, s1, s2, ks);
    FreshKeeps(c2, s1, ks);
  }

  /** Signatures taken over late are out of date too: of two persists that write a keyspace, the
      one that settles last leaves its signature, whichever text is stored. */
  lemma LateSettleStale(c1: Dump, c2: Dump, s0: Storage, s1: Storage, s2: Storage, sigs: map<string, Signature>, ks: string)
    requires PutLanded(c1, s0, s1) && PutLanded(c2, s1, s2) && Rewritten(c1, ks) && Rewritten(c2, ks)
    ensures var late := sigs + PendingSigs(c2) + PendingSigs(c1);
            Stored(s2, ks) == TextOf(c2, ks) && ks in late && late[ks] == Sign(TextOf(c1, ks))
  {
    hide PutLanded, Stored, JsonOf, Sign, Rewritten;
    StoredAfter(c2, s1, s2, ks);
    PendingSign(c1, ks);
  }

  const EMPTY_MANIFEST: Manifest := Manifest(0, [])

  /** Two lists of entries, each one chunk of JSON, that their signatures tell apart. */
  ghost predicate Telling(codec: Codec, x: seq<Entry>, y: seq<Entry>) {
    && Faithful(codec) && x != [] && y != []
    && |codec.encode(x)| <= CHUNK && |codec.encode(y)| <= CHUNK && Sign(codec.encode(x)) != Sign(codec.encode(y))
  }

  /** A persist of one keyspace, whose signature is that of `was`. */
  function DumpFrom(codec: Codec, index: map<string, nat>, was: seq<Entry>, entries: seq<Entry>): Dump {
    Dump(codec, index, map["t" := Sign(codec.encode(was))], DurableState(EMPTY_MANIFEST, map["t" := entries]), map[])
  }

  /** Storage that holds the keyspace in one chunk. */
  function Holding(text: Text): Storage {
    map[ManifestKey := ManifestValue(EMPTY_MANIFEST), MemIndexKey := IndexValue(map["t" := 1]), MemKey("t", 0) := ChunkValue(text)]
  }

  lemma OneChunk(t: Text)
    requires 0 < |t| <= CHUNK
    ensures ChunkCount(|t|) == 1 && Slice(t, 0) == t
    ensures Stored(Holding(t), "t") == t
  {
    assert Joined(Holding(t), "t", 1) == Joined(Holding(t), "t", 0) + t;
  }

  lemma TextsOf(codec: Codec, index: map<string, nat>, was: seq<Entry>, entries: seq<Entry>)
    ensures var c := DumpFrom(codec, index, was, entries);
            && TextOf(c, "t") == (if entries == [] then [] else codec.encode(entries))
            && Names(c) == {"t"} + index.Keys
  {
  }

  /** A put that rewrites the one keyspace with one chunk. */
  lemma PutsOne(c: Dump, s: Storage, t: Text)
    requires Names(c) == {"t"} && Rewritten(c, "t") && TextOf(c, "t") == t && 0 < |t| <= CHUNK && c.jobs == map[]
    ensures PutLanded(c, s, s + map[ManifestKey := ManifestValue(c.state.manifest),
                                    MemIndexKey := IndexValue(map["t" := 1]), MemKey("t", 0) := ChunkValue(t)])
  {
    hide Sign, JsonOf, Rewritten, Slice, ChunkCount, Stored, IndexAfter;
    OneChunk(t);
    assert IndexAfter(c, Names(c)) == map["t" := 1] by {
      OneIndex(c);
    }
    assert PutAt(c, Names(c), MemKey("t", 0)) == Some(ChunkValue(t));
  }

  lemma OneIndex(c: Dump)
    requires Names(c) == {"t"} && Rewritten(c, "t") && Chunks(c, "t") == 1
    ensures IndexAfter(c, Names(c)) == map["t" := 1]
  {
    hide Sign, JsonOf, Skipped, ChunkCount;
  }

  /** A put that rewrites the one keyspace as empty. */
  lemma PutsNone(c: Dump, s: Storage)
    requires Names(c) == {"t"} && Rewritten(c, "t") && TextOf(c, "t") == [] && c.jobs == map[]
    ensures PutLanded(c, s, s + map[ManifestKey := ManifestValue(c.state.manifest), MemIndexKey := IndexValue(map[])])
  {
    hide Sign, JsonOf, Skipped;
    assert IndexAfter(c, Names(c)) == map[];
  }

  /** A put that skips the one keyspace. */
  lemma PutsNothing(c: Dump, s: Storage)
    requires Names(c) == {"t"} && !Rewritten(c, "t") && c.jobs == map[]
    ensures PutLanded(c, s, s + map[ManifestKey := ManifestValue(c.state.manifest)])
  {
    hide Sign, JsonOf, Skipped;
  }

  lemma HoldingOne(t: Text, s: Storage)
    requires s.Keys <= {ManifestKey, MemIndexKey, MemKey("t", 0)}
    ensures s + map[ManifestKey := ManifestValue(EMPTY_MANIFEST),
                    MemIndexKey := IndexValue(map["t" := 1]), MemKey("t", 0) := ChunkValue(t)] == Holding(t)
    ensures s == Holding(t) ==> s + map[ManifestKey := ManifestValue(EMPTY_MANIFEST)] == Holding(t)
  {
  }

  /** The first text gives way to another and comes back; the second persist begins before the
      first has settled. The text in between is what stays, so the second does not skip rightly. */
  lemma RevertIsLost(codec: Codec, x: seq<Entry>, y: seq<Entry>)
    requires Telling(codec, x, y)
    ensures var t, u := codec.encode(x), codec.encode(y);
            var c1, c2 := DumpFrom(codec, map["t" := 1], x, y), DumpFrom(codec, map["t" := 1], x, x);
            && PutLanded(c1, Holding(t), Holding(u)) && PutLanded(c2, Holding(u), Holding(u))
            && Stored(Holding(u), "t") == u != TextOf(c2, "t")
  {
    hide Sign, PutLanded, Stored, Slice, ChunkCount;
    var t, u := codec.encode(x), codec.encode(y);
    var c1, c2 := DumpFrom(codec, map["t" := 1], x, y), DumpFrom(codec, map["t" := 1], x, x);
    TextsOf(codec, map["t" := 1], x, y);
    TextsOf(codec, map["t" := 1], x, x);
    OneChunk(t);
    OneChunk(u);
    PutsOne(c1, Holding(t), u);
    PutsNothing(c2, Holding(u));
    HoldingOne(u, Holding(t));
    HoldingOne(u, Holding(u));
  }

  /** The keyspace is emptied and written again before the deletions of the first persist have
      run; they take the new chunk. */
  lemma RewriteIsLost(codec: Codec, x: seq<Entry>, y: seq<Entry>)
    requires Telling(codec, x, y)
    ensures var t, u := codec.encode(x), codec.encode(y);
            var c1, c2 := DumpFrom(codec, map["t" := 1], x, []), DumpFrom(codec, map[], x, y);
            var emptied := Holding(t)[MemIndexKey := IndexValue(map[])];
            var cleaned := Holding(u) - {MemKey("t", 0)};
            && PutLanded(c1, Holding(t), emptied) && PutLanded(c2, emptied, Holding(u)) && Cleaned(c1, Holding(u), cleaned)
            && Stored(Holding(u), "t") == TextOf(c2, "t") == u && Stored(cleaned, "t") != u
  {
    hide Sign, PutLanded, Stored, Cleaned, Slice, ChunkCount, DeletedAt;
    var t, u := codec.encode(x), codec.encode(y);
    var c1, c2 := DumpFrom(codec, map["t" := 1], x, []), DumpFrom(codec, map[], x, y);
    var emptied := Holding(t)[MemIndexKey := IndexValue(map[])];
    var cleaned := Holding(u) - {MemKey("t", 0)};
    TextsOf(codec, map["t" := 1], x, []);
    TextsOf(codec, map[], x, y);
    OneChunk(t);
    OneChunk(u);
    EmptySign(t);
    PutsNone(c1, Holding(t));
    assert emptied == Holding(t) + map[ManifestKey := ManifestValue(EMPTY_MANIFEST), MemIndexKey := IndexValue(map[])];
    PutsOne(c2, emptied, u);
    HoldingOne(u, emptied);
    CleansOne(c1, Holding(u));
    ChunkTaken(c1, u, cleaned);
  }

  lemma EmptySign(t: Text)
    requires t != []
    ensures Sign(t) != Sign([]) && ChunkCount(0) == 0
  {
  }

  lemma CleansOne(c: Dump, s: Storage)
    requires Names(c) == {"t"} && Rewritten(c, "t") && TextOf(c, "t") == [] && Count(c.index, "t") == 1
    ensures Cleaned(c, s, s - {MemKey("t", 0)}) && DeletedAt(c, Names(c), MemKey("t", 0))
  {
    hide Sign, JsonOf, Skipped;
  }

  lemma ChunkTaken(c: Dump, u: Text, s: Storage)
    requires 0 < |u| <= CHUNK && Cleaned(c, Holding(u), s) && DeletedAt(c, Names(c), MemKey("t", 0))
    ensures Stored(s, "t") != u
  {
    hide DeletedAt, Cleaned, Stored;
    OneChunk(u);
    CleanExactly(c, Holding(u), s, "t");
    assert ChunkAt(Holding(u), "t", 0) == u && Count(IndexIn(Holding(u)), "t") == 1;
  }
}
