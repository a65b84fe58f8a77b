/** Lexicographic comparison of integer strings: the order `memcmp` puts on bytes
    and the order JavaScript's `<` puts on UTF-16 code units. */
module Lex {

  /** -1, 0 or 1; a proper prefix sorts first. */
  function Compare(a: seq<int>, b: seq<int>): (r: int)
    ensures r == -1 || r == 0 || r == 1
    ensures r == 0 <==> a == b
  {
    if a == [] then (if b == [] then 0 else -1)
    else if b == [] then 1
    else if a[0] != b[0] then (if a[0] < b[0] then -1 else 1)
    else
      assert a == [a[0]] + a[1..] && b == [b[0]] + b[1..];
      Compare(a[1..], b[1..])
  }

  predicate Less(a: seq<int>, b: seq<int>) {
    Compare(a, b) < 0
  }

  /** `a` and `b` part inside both of them, with `a` smaller at that place. */
  predicate Below(a: seq<int>, b: seq<int>) {
    a != [] && b != [] && (a[0] < b[0] || (a[0] == b[0] && Below(a[1..], b[1..])))
  }

  lemma ConcatAssociates<T>(x: seq<T>, y: seq<T>, z: seq<T>)
    ensures x + (y + z) == x + y + z
  {
  }

  lemma {:induction false} CompareFlips(a: seq<int>, b: seq<int>)
    ensures Compare(b, a) == -Compare(a, b)
  {
    if a == [] || b == [] || a[0] != b[0] {
    } else {
      CompareFlips(a[1..], b[1..]);
    }
  }

  lemma {:induction false} LessTransitive(a: seq<int>, b: seq<int>, c: seq<int>)
    requires Compare(a, b) <= 0 && Compare(b, c) <= 0
    ensures Compare(a, c) <= 0
    ensures Compare(a, b) < 0 || Compare(b, c) < 0 ==> Compare(a, c) < 0
  {
    if a == [] || b == [] || c == [] || a[0] != b[0] || b[0] != c[0] {
    } else {
      LessTransitive(a[1..], b[1..], c[1..]);
    }
  }

  /** A place where two strings part decides them whatever follows. */
  lemma {:induction false} BelowDecides(a: seq<int>, b: seq<int>, r: seq<int>, s: seq<int>)
    requires Below(a, b)
    ensures Below(a + r, b + s)
    ensures Compare(a + r, b + s) == -1 && Compare(b + s, a + r) == 1
  {
    if a[0] != b[0] {
    } else {
      BelowDecides(a[1..], b[1..], r, s);
      assert (a + r)[1..] == a[1..] + r && (b + s)[1..] == b[1..] + s;
    }
  }

  lemma {:induction false} BelowUnderPrefix(p: seq<int>, a: seq<int>, b: seq<int>)
    requires Below(a, b)
    ensures Below(p + a, p + b)
  {
    if p == [] {
      assert p + a == a && p + b == b;
    } else {
      BelowUnderPrefix(p[1..], a, b);
      assert (p + a)[1..] == p[1..] + a && (p + b)[1..] == p[1..] + b;
    }
  }

  lemma BelowAt(a: seq<int>, b: seq<int>, k: nat)
    requires k < |a| && k < |b| && a[..k] == b[..k] && a[k] < b[k]
    ensures Below(a, b)
  {
    BelowUnderPrefix(a[..k], a[k..], b[k..]);
    assert a[..k] + a[k..] == a && b[..k] + b[k..] == b;
  }

  lemma {:induction false} CompareUnderPrefix(p: seq<int>, a: seq<int>, b: seq<int>)
    ensures Compare(p + a, p + b) == Compare(a, b)
  {
    if p == [] {
      assert p + a == a && p + b == b;
    } else {
      CompareUnderPrefix(p[1..], a, b);
      assert (p + a)[1..] == p[1..] + a && (p + b)[1..] == p[1..] + b;
    }
  }

  lemma {:induction false} PrefixNotAbove(p: seq<int>, r: seq<int>)
    ensures Compare(p, p + r) == if r == [] then 0 else -1
  {
    CompareUnderPrefix(p, [], r);
    assert p + [] == p;
  }
}
