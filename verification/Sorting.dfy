/** Sequences in strict ascending order, and the one such arrangement of a finite set. */
module Sorting {
  import Lex

  ghost predicate Ascending<T>(s: seq<T>, less: (T, T) -> bool) {
    forall i, j :: 0 <= i < j < |s| ==> less(s[i], s[j])
  }

  ghost predicate Asymmetric<T(!new)>(less: (T, T) -> bool) {
    forall x, y :: less(x, y) ==> !less(y, x)
  }

  ghost predicate Transitive<T(!new)>(less: (T, T) -> bool) {
    forall x, y, z :: less(x, y) && less(y, z) ==> less(x, z)
  }

  ghost predicate TotalOn<T>(s: set<T>, less: (T, T) -> bool) {
    forall x, y :: x in s && y in s && x != y ==> less(x, y) || less(y, x)
  }

  ghost predicate Orders<T(!new)>(s: set<T>, less: (T, T) -> bool) {
    Asymmetric(less) && Transitive(less) && TotalOn(s, less)
  }

  predicate IsLeast<T(==)>(m: T, s: set<T>, less: (T, T) -> bool) {
    m in s && forall x :: x in s && x != m ==> less(m, x)
  }

  lemma {:induction false} LeastExists<T(!new)>(s: set<T>, less: (T, T) -> bool)
    requires s != {} && Orders(s, less)
    ensures exists m :: IsLeast(m, s, less)
    decreases |s|
  {
    var y :| y in s;
    var rest := s - {y};
    if rest == {} {
      assert forall x :: x in s ==> x == y || x in rest;
      assert IsLeast(y, s, less);
    } else {
      LeastExists(rest, less);
      var n :| IsLeast(n, rest, less);
      assert IsLeast(if less(y, n) then y else n, s, less);
    }
  }

  function Least<T(!new,==)>(s: set<T>, less: (T, T) -> bool): (m: T)
    requires s != {} && Orders(s, less)
    ensures IsLeast(m, s, less)
  {
    LeastExists(s, less);
    var m :| m in s && IsLeast(m, s, less);
    m
  }

  /** The elements of `s`, ascending. */
  function Arrange<T(!new,==)>(s: set<T>, less: (T, T) -> bool): (r: seq<T>)
    requires Orders(s, less)
    ensures Ascending(r, less)
    ensures forall x :: x in r <==> x in s
    ensures |r| == |s|
    decreases |s|
  {
    if s == {} then []
    else
      var m := Least(s, less);
      [m] + Arrange(s - {m}, less)
  }

  /** An ascending sequence is determined by its elements. */
  lemma {:induction false} AscendingUnique<T(!new)>(a: seq<T>, b: seq<T>, less: (T, T) -> bool)
    requires Ascending(a, less) && Ascending(b, less) && Asymmetric(less)
    requires forall x :: x in a <==> x in b
    ensures a == b
  {
    assert (a != [] ==> a[0] in a) && (b != [] ==> b[0] in b);
    if a == [] {
    } else {
      FirstsAgree(a, b, less);
      TailAscends(a, less);
      TailAscends(b, less);
      forall x ensures x in a[1..] <==> x in b[1..] {
        TailMember(a, less, x);
        TailMember(b, less, x);
      }
      AscendingUnique(a[1..], b[1..], less);
      assert a == [a[0]] + a[1..] && b == [b[0]] + b[1..];
    }
  }

  lemma FirstsAgree<T(!new)>(a: seq<T>, b: seq<T>, less: (T, T) -> bool)
    requires Ascending(a, less) && Ascending(b, less) && Asymmetric(less)
    requires a != [] && b != [] && a[0] in b && b[0] in a
    ensures a[0] == b[0]
  {
    FirstIsLeast(b, less, a[0]);
    FirstIsLeast(a, less, b[0]);
  }

  lemma TailAscends<T(!new)>(a: seq<T>, less: (T, T) -> bool)
    requires a != [] && Ascending(a, less)
    ensures Ascending(a[1..], less)
    ensures forall x :: x in a[1..] ==> less(a[0], x)
  {
    forall x | x in a[1..] ensures less(a[0], x) {
      var i :| 0 <= i < |a[1..]| && a[1..][i] == x;
      assert less(a[0], a[i + 1]);
    }
  }

  lemma FirstIsLeast<T>(a: seq<T>, less: (T, T) -> bool, x: T)
    requires Ascending(a, less) && x in a
    ensures x == a[0] || less(a[0], x)
  {
    var i :| 0 <= i < |a| && a[i] == x;
  }

  lemma TailMember<T(!new)>(a: seq<T>, less: (T, T) -> bool, x: T)
    requires a != [] && Ascending(a, less) && Asymmetric(less)
    ensures x in a[1..] <==> x in a && x != a[0]
  {
    if x in a[1..] {
      var k :| 0 <= k < |a[1..]| && a[1..][k] == x;
      assert less(a[0], a[k + 1]);
    }
  }

  lemma ArrangeUnique<T(!new)>(a: seq<T>, s: set<T>, less: (T, T) -> bool)
    requires Ascending(a, less) && Orders(s, less)
    requires forall x :: x in a <==> x in s
    ensures a == Arrange(s, less)
  {
    AscendingUnique(a, Arrange(s, less), less);
  }

  // ---------------------------------------------------------------- finite sequences

  function Take<T>(s: seq<T>, n: nat): (r: seq<T>)
    ensures |r| <= n
    ensures r <= s
  {
    if |s| <= n then s else s[..n]
  }

  /** The last `n` elements. */
  function TakeLast<T>(s: seq<T>, n: nat): seq<T> {
    if |s| <= n then s else s[|s| - n..]
  }

  function Reverse<T>(s: seq<T>): (r: seq<T>)
    ensures |r| == |s|
    ensures forall i :: 0 <= i < |s| ==> r[i] == s[|s| - 1 - i]
  {
    seq(|s|, i requires 0 <= i < |s| => s[|s| - 1 - i])
  }

  lemma ReverseTake<T(!new)>(s: seq<T>, n: nat)
    ensures Reverse(Take(Reverse(s), n)) == TakeLast(s, n)
    ensures Reverse(Reverse(s)) == s
    ensures forall x :: x in Reverse(s) <==> x in s
  {
    forall x ensures x in Reverse(s) <==> x in s {
      if x in s {
        var i :| 0 <= i < |s| && s[i] == x;
        assert Reverse(s)[|s| - 1 - i] == x;
      }
    }
  }

  lemma TakeSlice<T>(s: seq<T>, start: nat, i: nat, end: nat, limit: nat)
    requires start <= i <= end <= |s|
    requires i - start == limit || (i == end && i - start <= limit)
    ensures Take(s[start..end], limit) == s[start..i]
  {
  }

  lemma TakeReversed<T>(s: seq<T>, start: nat, i: nat, end: nat, limit: nat)
    requires start <= i <= end <= |s|
    requires end - i == limit || (i == start && end - i <= limit)
    ensures Take(Reverse(s[start..end]), limit) == Reverse(s[i..end])
  {
  }

  lemma ReverseGrows<T>(s: seq<T>, i: nat, end: nat)
    requires i < end <= |s|
    ensures Reverse(s[i..end]) == Reverse(s[i + 1..end]) + [s[i]]
  {
  }

  function Select<T(!new)>(s: seq<T>, p: T -> bool): (r: seq<T>)
    ensures |r| <= |s|
    ensures forall x :: x in r <==> x in s && p(x)
  {
    if s == [] then [] else (if p(s[0]) then [s[0]] else []) + Select(s[1..], p)
  }

  lemma {:induction false} SelectAppend<T(!new)>(a: seq<T>, b: seq<T>, p: T -> bool)
    ensures Select(a + b, p) == Select(a, p) + Select(b, p)
  {
    if a == [] {
      assert a + b == b;
    } else {
      SelectAppend(a[1..], b, p);
      assert (a + b)[1..] == a[1..] + b;
      Lex.ConcatAssociates(if p(a[0]) then [a[0]] else [], Select(a[1..], p), Select(b, p));
    }
  }

  lemma ReverseHead<T>(s: seq<T>)
    requires s != []
    ensures Reverse(s) == Reverse(s[1..]) + [s[0]]
  {
  }

  lemma {:induction false} SelectReverse<T(!new)>(s: seq<T>, p: T -> bool)
    ensures Select(Reverse(s), p) == Reverse(Select(s, p))
  {
    hide Reverse;
    if s == [] {
    } else {
      ReverseHead(s);
      SelectAppend(Reverse(s[1..]), [s[0]], p);
      SelectReverse(s[1..], p);
      if p(s[0]) {
        assert Select(s, p)[1..] == Select(s[1..], p);
        ReverseHead(Select(s, p));
      }
    }
  }

  lemma {:induction false} SelectAscending<T(!new)>(s: seq<T>, p: T -> bool, less: (T, T) -> bool)
    requires Ascending(s, less)
    ensures Ascending(Select(s, p), less)
  {
    if s == [] {
    } else {
      SelectAscending(s[1..], p, less);
      var t := Select(s[1..], p);
      forall x | x in t ensures less(s[0], x) {
        assert x in s[1..];
        var i :| 0 <= i < |s[1..]| && s[1..][i] == x;
        assert less(s[0], s[i + 1]);
      }
    }
  }

  lemma {:induction false} SelectNone<T(!new)>(s: seq<T>, p: T -> bool)
    requires forall x :: x in s ==> !p(x)
    ensures Select(s, p) == []
  {
    if s != [] {
      SelectNone(s[1..], p);
    }
  }

  lemma {:induction false} SelectAll<T(!new)>(s: seq<T>, p: T -> bool)
    requires forall x :: x in s ==> p(x)
    ensures Select(s, p) == s
  {
    if s == [] {
    } else {
      SelectAll(s[1..], p);
    }
  }
}
