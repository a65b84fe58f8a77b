/** The memtable: a sorted array and a hash map over the same entries
    (packages/engine/src/lsm/memtable.ts). */
module MemtableModule {
  import Lex
  import opened Values
  import opened Wrappers
  import opened Keys
  import opened Sorting
  import opened Store

  /** Entries in strictly ascending key order. */
  ghost predicate Sorted(s: seq<Entry>) {
    forall i, j :: 0 <= i < j < |s| ==> KeyLess(s[i].key, s[j].key)
  }

  function TotalCost(s: seq<Entry>, cost: Entry -> int): int {
    if s == [] then 0 else cost(s[0]) + TotalCost(s[1..], cost)
  }

  lemma {:induction false} TotalCostAppend(a: seq<Entry>, b: seq<Entry>, cost: Entry -> int)
    ensures TotalCost(a + b, cost) == TotalCost(a, cost) + TotalCost(b, cost)
  {
    if a == [] {
      assert a + b == b;
    } else {
      TotalCostAppend(a[1..], b, cost);
      assert (a + b)[1..] == a[1..] + b;
    }
  }

  function KeysOf(s: seq<Entry>): (r: seq<Bytes>)
    ensures |r| == |s|
    ensures forall i :: 0 <= i < |s| ==> r[i] == s[i].key
  {
    seq(|s|, i requires 0 <= i < |s| => s[i].key)
  }

  /** The array lists exactly the entries of the map. */
  ghost predicate Represents(s: seq<Entry>, c: map<Bytes, Entry>) {
    && Sorted(s)
    && (forall i :: 0 <= i < |s| ==> s[i].key in c && c[s[i].key] == s[i])
    && (forall k :: k in c ==> k in KeysOf(s))
  }

  lemma RepresentsSorted(s: seq<Entry>, c: map<Bytes, Entry>)
    requires Represents(s, c)
    ensures Sorted(s)
  {
  }

  /** The hash map holds exactly the entries of the map. */
  ghost predicate Indexes(byKey: map<string, Entry>, c: map<Bytes, Entry>) {
    && (forall k :: k in c ==> KeyHex(k) in byKey && byKey[KeyHex(k)] == c[k])
    && (forall h :: h in byKey ==> KeyHex(byKey[h].key) == h && byKey[h].key in c)
  }

  class Memtable {
    /** The rough size estimate of an entry. */
    const cost: Entry -> int
    var byKey: map<string, Entry>
    var sorted: seq<Entry>
    var bytes: int
    /** The map the two structures stand for. */
    ghost var contents: map<Bytes, Entry>

    ghost predicate Valid()
      reads this
    {
      Represents(sorted, contents) && Indexes(byKey, contents) && bytes == TotalCost(sorted, cost)
    }

    constructor (cost: Entry -> int)
      ensures Valid() && contents == map[] && this.cost == cost
    {
      this.cost := cost;
      byKey := map[];
      sorted := [];
      bytes := 0;
      contents := map[];
    }

    /** First index with key >= target. */
    method LowerBound(target: Bytes) returns (lo: nat)
      requires Sorted(sorted)
      ensures lo <= |sorted|
      ensures forall i :: 0 <= i < lo ==> Lex.Less(sorted[i].key, target)
      ensures forall i :: lo <= i < |sorted| ==> !Lex.Less(sorted[i].key, target)
    {
      lo := 0;
      var hi := |sorted|;
      while lo < hi
        invariant lo <= hi <= |sorted|
        invariant forall i :: 0 <= i < lo ==> Lex.Less(sorted[i].key, target)
        invariant forall i :: hi <= i < |sorted| ==> !Lex.Less(sorted[i].key, target)
      {
        var mid := (lo + hi) / 2;
        var c := CompareBytes(sorted[mid].key, target);
        if c < 0 {
          forall i | 0 <= i < mid ensures Lex.Less(sorted[i].key, target) {
            Lex.LessTransitive(sorted[i].key, sorted[mid].key, target);
          }
          lo := mid + 1;
        } else {
          forall i | mid < i < |sorted| ensures !Lex.Less(sorted[i].key, target) {
            Lex.CompareFlips(sorted[mid].key, target);
            assert KeyLess(sorted[mid].key, sorted[i].key);
            Lex.LessTransitive(target, sorted[mid].key, sorted[i].key);
            Lex.CompareFlips(target, sorted[i].key);
          }
          hi := mid;
        }
      }
    }

    method IndexOf(target: Bytes) returns (idx: int)
      requires Sorted(sorted)
      ensures idx >= 0 ==> idx < |sorted| && sorted[idx].key == target
      ensures idx < 0 ==> target !in KeysOf(sorted)
    {
      idx := LowerBound(target);
      if idx < |sorted| {
        var c := CompareBytes(sorted[idx].key, target);
        if c == 0 {
          return;
        }
      }
      forall i | 0 <= i < |sorted| ensures sorted[i].key != target {
        if idx < i {
          assert KeyLess(sorted[idx].key, sorted[i].key);
          Lex.CompareFlips(sorted[idx].key, target);
        }
      }
      idx := -1;
    }

    method Upsert(entry: Entry)
      requires Valid()
      modifies this
      ensures Valid()
      ensures contents == old(contents)[entry.key := entry]
    {
      hide Lex.Compare, KeyHex, TotalCost, KeysOf, Indexes;
      var hex := KeyHex(entry.key);
      HashFinds(byKey, contents, entry.key);
      if hex in byKey {
        bytes := bytes + cost(entry) - cost(byKey[hex]);
        var idx := IndexOf(entry.key);
        if idx >= 0 {
          SpliceCost(sorted, idx, idx + 1, entry, cost);
          ReplaceRepresents(sorted, contents, idx, entry);
          sorted := sorted[..idx] + [entry] + sorted[idx + 1..];
        }
      } else {
        bytes := bytes + cost(entry);
        var idx := LowerBound(entry.key);
        SpliceCost(sorted, idx, idx, entry, cost);
        InsertRepresents(sorted, contents, idx, entry);
        sorted := sorted[..idx] + [entry] + sorted[idx..];
      }
      PutIndexes(byKey, contents, entry);
      byKey := byKey[hex := entry];
      contents := contents[entry.key := entry];
    }

    method Get(key: Bytes) returns (r: Option<Entry>)
      requires Valid()
      ensures r == if key in contents then Some(contents[key]) else None
    {
      var hex := KeyHex(key);
      HashFinds(byKey, contents, key);
      if hex in byKey {
        r := Some(byKey[hex]);
      } else {
        r := None;
      }
    }

    /** Up to `limit` entries of `[lo, hi)`, smallest key first. */
    method RangeForward(lo: Bytes, hi: Option<Bytes>, limit: nat) returns (out: seq<Entry>)
      requires Valid()
      ensures out == Scan(contents, lo, hi, false, limit)
    {
      hide Lex.Compare, KeyHex, TotalCost, Scan, Indexes, Represents, Sorted;
      RepresentsSorted(sorted, contents);
      var start := LowerBound(lo);
      out := [];
      var i := start;
      while i < |sorted| && |out| < limit
        invariant start <= i <= |sorted|
        invariant out == sorted[start..i] && |out| <= limit
        invariant forall j :: start <= j < i ==> InRange(sorted[j].key, lo, hi)
      {
        if hi.Some? {
          var c := CompareBytes(sorted[i].key, hi.value);
          if c >= 0 {
            AllAtOrAbove(sorted, i, hi.value);
            break;
          }
        }
        out := out + [sorted[i]];
        i := i + 1;
      }
      ForwardPrefix(sorted, contents, lo, hi, limit, start, i);
    }

    method EndIndex(hi: Option<Bytes>) returns (end: nat)
      requires Sorted(sorted)
      ensures AtBound(sorted, hi, end)
    {
      if hi.Some? {
        end := LowerBound(hi.value);
      } else {
        end := |sorted|;
      }
    }

    /** Up to `limit` entries of `[lo, hi)`, largest key first. */
    method RangeBackward(lo: Bytes, hi: Option<Bytes>, limit: nat) returns (out: seq<Entry>)
      requires Valid()
      ensures out == Scan(contents, lo, hi, true, limit)
    {
      hide Lex.Compare, KeyHex, TotalCost, Scan, Indexes, Represents, Sorted, Reverse, AtBound;
      RepresentsSorted(sorted, contents);
      var end := EndIndex(hi);
      var s := sorted;
      EndInside(s, hi, end);
      out := [];
      var i := end;
      while i > 0 && |out| < limit
        invariant 0 <= i <= end && |out| == end - i <= limit
        invariant out == Reverse(s[i..end])
        invariant forall j :: i <= j < end ==> !Lex.Less(s[j].key, lo)
      {
        var c := CompareBytes(s[i - 1].key, lo);
        if c < 0 {
          break;
        }
        i := i - 1;
        ReverseGrows(s, i, end);
        out := out + [s[i]];
      }
      assert end - i == limit || i == 0 || Lex.Less(s[i - 1].key, lo);
      BackwardPrefix(s, contents, lo, hi, limit, i, end);
    }

    method Clear()
      requires Valid()
      modifies this
      ensures Valid() && contents == map[]
    {
      hide Lex.Compare, KeyHex;
      byKey := map[];
      sorted := [];
      bytes := 0;
      contents := map[];
    }
  }

  // ---------------------------------------------------------------- facts about the sorted array

  lemma HashFinds(byKey: map<string, Entry>, c: map<Bytes, Entry>, key: Bytes)
    requires Indexes(byKey, c)
    ensures KeyHex(key) in byKey <==> key in c
    ensures key in c ==> byKey[KeyHex(key)] == c[key]
  {
    if KeyHex(key) in byKey {
      KeyHexInjective(byKey[KeyHex(key)].key, key);
    }
  }

  lemma PutIndexes(byKey: map<string, Entry>, c: map<Bytes, Entry>, e: Entry)
    requires Indexes(byKey, c)
    ensures Indexes(byKey[KeyHex(e.key) := e], c[e.key := e])
  {
    forall k | k in c && KeyHex(k) == KeyHex(e.key) ensures k == e.key {
      KeyHexInjective(k, e.key);
    }
  }

  lemma ReplaceRepresents(s: seq<Entry>, c: map<Bytes, Entry>, at: nat, e: Entry)
    requires Represents(s, c) && at < |s| && s[at].key == e.key
    ensures Represents(s[..at] + [e] + s[at + 1..], c[e.key := e])
  {
    var t := s[..at] + [e] + s[at + 1..];
    assert KeysOf(t) == KeysOf(s);
    forall i | 0 <= i < |t| && i != at ensures t[i] == s[i] && s[i].key != e.key {
      assert KeyLess(s[i].key, s[at].key) || KeyLess(s[at].key, s[i].key);
    }
  }

  lemma InsertRepresents(s: seq<Entry>, c: map<Bytes, Entry>, at: nat, e: Entry)
    requires Represents(s, c) && at <= |s| && e.key !in c
    requires forall i :: 0 <= i < at ==> Lex.Less(s[i].key, e.key)
    requires forall i :: at <= i < |s| ==> !Lex.Less(s[i].key, e.key)
    ensures Represents(s[..at] + [e] + s[at..], c[e.key := e])
  {
    hide Lex.Compare, KeysOf, Lex.Less;
    var t := s[..at] + [e] + s[at..];
    InsertSorts(s, at, e);
    forall k | k in c[e.key := e] ensures k in KeysOf(t) {
      if k == e.key {
        assert KeysOf(t)[at] == k;
      } else {
        var i :| 0 <= i < |s| && KeysOf(s)[i] == k;
        assert KeysOf(t)[if i < at then i else i + 1] == k;
      }
    }
  }

  lemma InsertSorts(s: seq<Entry>, at: nat, e: Entry)
    requires Sorted(s) && at <= |s| && forall i :: 0 <= i < |s| ==> s[i].key != e.key
    requires forall i :: 0 <= i < at ==> Lex.Less(s[i].key, e.key)
    requires forall i :: at <= i < |s| ==> !Lex.Less(s[i].key, e.key)
    ensures Sorted(s[..at] + [e] + s[at..])
  {
    hide Lex.Compare;
    var t := s[..at] + [e] + s[at..];
    forall i | at <= i < |s| ensures KeyLess(e.key, s[i].key) {
      Lex.CompareFlips(s[i].key, e.key);
    }
    assert forall i :: 0 <= i < |t| ==> t[i] == if i < at then s[i] else if i == at then e else s[i - 1];
  }

  lemma SpliceCost(s: seq<Entry>, i: nat, j: nat, e: Entry, cost: Entry -> int)
    requires i <= j <= |s|
    ensures TotalCost(s[..i] + [e] + s[j..], cost) == TotalCost(s, cost) + cost(e) - TotalCost(s[i..j], cost)
    ensures j == i ==> TotalCost(s[i..j], cost) == 0
    ensures j == i + 1 ==> TotalCost(s[i..j], cost) == cost(s[i])
  {
    hide TotalCost;
    var a, b, d := s[..i], s[i..j], s[j..];
    TotalCostAppend(a + [e], d, cost);
    TotalCostAppend(a, [e], cost);
    assert s == a + b + d;
    TotalCostAppend(a + b, d, cost);
    TotalCostAppend(a, b, cost);
    ShortCost(b, cost);
    ShortCost([e], cost);
  }

  lemma ShortCost(s: seq<Entry>, cost: Entry -> int)
    ensures s == [] ==> TotalCost(s, cost) == 0
    ensures |s| == 1 ==> TotalCost(s, cost) == cost(s[0])
  {
  }

  lemma AllAtOrAbove(s: seq<Entry>, i: nat, bound: Bytes)
    requires Sorted(s) && i < |s| && !Lex.Less(s[i].key, bound)
    ensures forall j :: i <= j < |s| ==> !Lex.Less(s[j].key, bound)
  {
    forall j | i < j < |s| ensures !Lex.Less(s[j].key, bound) {
      assert KeyLess(s[i].key, s[j].key);
      Lex.CompareFlips(s[i].key, bound);
      Lex.LessTransitive(bound, s[i].key, s[j].key);
      Lex.CompareFlips(bound, s[j].key);
    }
  }

  lemma AllBelow(s: seq<Entry>, i: nat, bound: Bytes)
    requires Sorted(s) && i < |s| && Lex.Less(s[i].key, bound)
    ensures forall j :: 0 <= j <= i ==> Lex.Less(s[j].key, bound)
  {
    forall j | 0 <= j < i ensures Lex.Less(s[j].key, bound) {
      assert KeyLess(s[j].key, s[i].key);
      Lex.LessTransitive(s[j].key, s[i].key, bound);
    }
  }

  /** The entries below `hi` are those before index `end`. */
  ghost predicate AtBound(s: seq<Entry>, hi: Option<Bytes>, end: nat) {
    end <= |s| && match hi
      case None => end == |s|
      case Some(h) =>
        && (forall j :: 0 <= j < end ==> Lex.Less(s[j].key, h))
        && (forall j :: end <= j < |s| ==> !Lex.Less(s[j].key, h))
  }

  lemma EndInside(s: seq<Entry>, hi: Option<Bytes>, end: nat)
    requires AtBound(s, hi, end)
    ensures end <= |s| && Reverse(s[end..end]) == []
  {
  }

  /** Where the entries of a range that starts at `start` end. */
  lemma {:induction false} EndOfSpan(s: seq<Entry>, lo: Bytes, hi: Option<Bytes>, start: nat) returns (end: nat)
    requires Sorted(s) && start <= |s|
    requires forall j :: start <= j < |s| ==> !Lex.Less(s[j].key, lo)
    ensures start <= end <= |s|
    ensures forall j :: start <= j < |s| ==> (j < end <==> InRange(s[j].key, lo, hi))
    ensures end == |s| || !InRange(s[end].key, lo, hi)
    decreases |s| - start
  {
    if start == |s| {
      end := start;
    } else if hi.Some? && !Lex.Less(s[start].key, hi.value) {
      AllAtOrAbove(s, start, hi.value);
      end := start;
    } else {
      end := EndOfSpan(s, lo, hi, start + 1);
    }
  }

  /** Where the entries of a range that ends at `end` start. */
  lemma {:induction false} StartOfSpan(s: seq<Entry>, lo: Bytes, hi: Option<Bytes>, bound: nat, end: nat) returns (start: nat)
    requires Sorted(s) && AtBound(s, hi, bound) && end <= bound
    ensures start <= end
    ensures forall j :: 0 <= j < end ==> (start <= j <==> InRange(s[j].key, lo, hi))
    ensures start == 0 || !InRange(s[start - 1].key, lo, hi)
  {
    if end == 0 {
      start := 0;
    } else if Lex.Less(s[end - 1].key, lo) {
      AllBelow(s, end - 1, lo);
      start := end;
    } else {
      start := StartOfSpan(s, lo, hi, bound, end - 1);
    }
  }

  lemma ForwardPrefix(s: seq<Entry>, c: map<Bytes, Entry>, lo: Bytes, hi: Option<Bytes>, limit: nat, start: nat, i: nat)
    requires Represents(s, c) && start <= i <= |s| && i - start <= limit
    requires forall j :: 0 <= j < start ==> Lex.Less(s[j].key, lo)
    requires forall j :: start <= j < |s| ==> !Lex.Less(s[j].key, lo)
    requires forall j :: start <= j < i ==> InRange(s[j].key, lo, hi)
    requires i - start == limit || i == |s| || !InRange(s[i].key, lo, hi)
    ensures Scan(c, lo, hi, false, limit) == s[start..i]
  {
    hide Lex.Compare, Represents, Sorted, Visits;
    RepresentsSorted(s, c);
    var end := EndOfSpan(s, lo, hi, start);
    assert i <= end;
    assert i == end || i - start == limit;
    SpanIsRange(s, c, lo, hi, start, end);
    TakeSlice(s, start, i, end, limit);
  }

  lemma BackwardPrefix(s: seq<Entry>, c: map<Bytes, Entry>, lo: Bytes, hi: Option<Bytes>, limit: nat, i: nat, end: nat)
    requires Represents(s, c) && i <= end <= |s| && end - i <= limit
    requires AtBound(s, hi, end)
    requires forall j :: i <= j < end ==> !Lex.Less(s[j].key, lo)
    requires end - i == limit || i == 0 || Lex.Less(s[i - 1].key, lo)
    ensures Scan(c, lo, hi, true, limit) == Reverse(s[i..end])
  {
    hide Lex.Compare, Represents, Sorted, Visits;
    RepresentsSorted(s, c);
    var start := StartOfSpan(s, lo, hi, end, end);
    assert start <= i;
    assert i == start || end - i == limit;
    SpanIsRange(s, c, lo, hi, start, end);
    VisitsBackward(c, lo, hi);
    TakeReversed(s, start, i, end, limit);
  }

  /** The keys of a range are one contiguous span of the sorted keys. */
  lemma SpanKeys(s: seq<Entry>, c: map<Bytes, Entry>, lo: Bytes, hi: Option<Bytes>, start: nat, end: nat)
    requires Represents(s, c) && start <= end <= |s|
    requires forall i :: 0 <= i < |s| ==> (start <= i < end <==> InRange(s[i].key, lo, hi))
    ensures KeyRange(c, lo, hi) == KeysOf(s)[start..end]
  {
    hide Lex.Compare, InRange, KeysOf;
    var keys := KeysOf(s);
    var span := keys[start..end];
    KeysOrdered(KeysIn(c, lo, hi));
    forall k | k in KeysIn(c, lo, hi) ensures k in span {
      assert k in keys;
      var i :| 0 <= i < |s| && keys[i] == k;
      assert keys[i] == s[i].key;
      assert span[i - start] == k;
    }
    SliceAscends(s, start, end);
    ArrangeUnique(span, KeysIn(c, lo, hi), KeyLess);
  }

  lemma SliceAscends(s: seq<Entry>, start: nat, end: nat)
    requires Sorted(s) && start <= end <= |s|
    ensures Ascending(KeysOf(s)[start..end], KeyLess)
  {
  }

  /** The entries of a range are one contiguous span of the sorted array. */
  lemma SpanIsRange(s: seq<Entry>, c: map<Bytes, Entry>, lo: Bytes, hi: Option<Bytes>, start: nat, end: nat)
    requires Represents(s, c) && start <= end <= |s|
    requires forall i :: 0 <= i < |s| ==> (start <= i < end <==> InRange(s[i].key, lo, hi))
    ensures Visits(c, lo, hi, false) == s[start..end]
  {
    hide Lex.Compare, InRange, KeyRange, KeysOf;
    SpanKeys(s, c, lo, hi, start, end);
    forall i | 0 <= i < end - start ensures Visits(c, lo, hi, false)[i] == s[start + i] {
      assert KeysOf(s)[start..end][i] == s[start + i].key;
    }
  }
}
