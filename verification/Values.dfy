/** The scalar values of the protocol, their comparison, and rows
    (packages/protocol/src/values.ts). */
module Values {
  import Lex

  type Byte = b: int | 0 <= b < 256
  type Bytes = seq<Byte>

  /** A Unicode scalar value; text is well formed, so it holds no lone surrogate. */
  type CodePoint = c: int | 0 <= c < 0xD800 || 0xE000 <= c < 0x110000
  type Text = seq<CodePoint>

  type Exponent = e: int | 0 <= e < 2048
  type Mantissa = m: int | 0 <= m < 0x10_0000_0000_0000

  /** The fields of a binary64 value: NaN and the infinities have exponent 2047. */
  datatype Binary64 = Binary64(neg: bool, exp: Exponent, mant: Mantissa) {
    predicate NaN() {
      exp == 2047 && mant > 0
    }

    predicate Zero() {
      exp == 0 && mant == 0
    }

    predicate NegZero() {
      neg && Zero()
    }

    /** The real value in units of 2^-1074, of which every finite double is a whole multiple. */
    function Scaled(): int {
      if neg then -Magnitude(exp, mant) else Magnitude(exp, mant)
    }
  }

  /** The one NaN: a language that cannot tell NaNs apart stores them all as the quiet one. */
  const QUIET_NAN: Binary64 := Binary64(false, 2047, 0x8_0000_0000_0000)

  type Double = d: Binary64 | d.NaN() ==> d == QUIET_NAN witness Binary64(false, 0, 0)

  datatype Scalar = Null | Bool(b: bool) | Num(d: Double) | Str(t: Text)

  type Row = map<string, Scalar>

  datatype OrderKey = OrderKey(column: string, desc: bool)

  // ---------------------------------------------------------------- doubles

  function Pow2(n: nat): (p: nat)
    ensures p >= 1
  {
    if n == 0 then 1 else 2 * Pow2(n - 1)
  }

  const HIDDEN_BIT: int := 0x10_0000_0000_0000

  function Magnitude(exp: Exponent, mant: Mantissa): int {
    if exp == 0 then mant else (HIDDEN_BIT + mant) * Pow2(exp - 1)
  }

  lemma {:induction false} Pow2Grows(m: nat, n: nat)
    requires m <= n
    ensures Pow2(m) <= Pow2(n)
  {
    if m == n {
    } else {
      Pow2Grows(m, n - 1);
    }
  }

  lemma ProductGrows(a: int, b: int, p: int, q: int)
    requires 0 <= a <= b && 0 <= p <= q
    ensures a * p <= b * q
  {
    assert a * p <= b * p <= b * q;
  }

  /** Magnitude orders the fields of a double as it orders the pair (exponent, mantissa). */
  lemma MagnitudeOrder(e: Exponent, m: Mantissa, f: Exponent, n: Mantissa)
    requires e < f || (e == f && m < n)
    ensures 0 <= Magnitude(e, m) < Magnitude(f, n)
  {
    if e == f {
      if e > 0 {
        ProductGrows(HIDDEN_BIT + m + 1, HIDDEN_BIT + n, Pow2(e - 1), Pow2(e - 1));
        ProductGrows(0, HIDDEN_BIT + m, 0, Pow2(e - 1));
      }
    } else {
      MagnitudeBelow(e, m);
      Pow2Grows(e, f - 1);
      ProductGrows(HIDDEN_BIT, HIDDEN_BIT + n, Pow2(e), Pow2(f - 1));
    }
  }

  lemma MagnitudeBelow(e: Exponent, m: Mantissa)
    ensures 0 <= Magnitude(e, m) < HIDDEN_BIT * Pow2(e)
  {
    if e > 0 {
      BelowNextPower(HIDDEN_BIT, m, Pow2(e - 1));
    }
  }

  lemma BelowNextPower(h: int, m: int, p: int)
    requires 0 <= m < h && p >= 1
    ensures 0 <= (h + m) * p < h * (2 * p)
  {
    ProductGrows(h + m + 1, 2 * h, p, p);
    ProductGrows(0, h + m, 0, p);
    assert (h + m + 1) * p == (h + m) * p + p;
    assert 2 * h * p == h * (2 * p);
  }

  // ---------------------------------------------------------------- comparison

  /** JavaScript `===` on scalars: the two zeros are equal, NaN equals nothing. */
  predicate Same(a: Scalar, b: Scalar) {
    if a.Num? && b.Num? then !a.d.NaN() && !b.d.NaN() && a.d.Scaled() == b.d.Scaled() else a == b
  }

  function TypeRank(v: Scalar): int
    requires !v.Null?
  {
    match v
    case Bool(_) => 0
    case Num(_) => 1
    case Str(_) => 2
  }

  /** The UTF-16 code units JavaScript compares strings by. */
  function Units(c: CodePoint): (u: seq<int>)
    ensures u != []
  {
    if c < 0x10000 then [c] else [0xD800 + (c - 0x10000) / 0x400, 0xDC00 + (c - 0x10000) % 0x400]
  }

  function Utf16(t: Text): seq<int> {
    if t == [] then [] else Units(t[0]) + Utf16(t[1..])
  }

  function CompareNumbers(a: Double, b: Double): int {
    if a.NaN() || b.NaN() then
      if a.NaN() && b.NaN() then 0 else if a.NaN() then 1 else -1
    else if a.Scaled() < b.Scaled() then -1
    else if a.Scaled() > b.Scaled() then 1
    else 0
  }

  function CompareScalar(a: Scalar, b: Scalar): (r: int)
    ensures r == -1 || r == 0 || r == 1
  {
    if Same(a, b) then 0
    else if a.Null? then -1
    else if b.Null? then 1
    else if TypeRank(a) != TypeRank(b) then (if TypeRank(a) < TypeRank(b) then -1 else 1)
    else if a.Bool? then (if a.b == b.b then 0 else if a.b then 1 else -1)
    else if a.Num? then CompareNumbers(a.d, b.d)
    else Lex.Compare(Utf16(a.t), Utf16(b.t))
  }

  /** `row[column] ?? null`. */
  function Get(row: Row, column: string): Scalar {
    if column in row then row[column] else Null
  }

  function CompareRows(a: Row, b: Row, order: seq<OrderKey>): (r: int)
    ensures r == -1 || r == 0 || r == 1
  {
    if order == [] then 0
    else
      var c := CompareScalar(Get(a, order[0].column), Get(b, order[0].column));
      if c != 0 then (if order[0].desc then -c else c) else CompareRows(a, b, order[1..])
  }

  function KeyOf(row: Row, order: seq<OrderKey>): (k: seq<Scalar>)
    ensures |k| == |order|
    ensures forall i :: 0 <= i < |order| ==> k[i] == Get(row, order[i].column)
  {
    seq(|order|, i requires 0 <= i < |order| => Get(row, order[i].column))
  }

  /** Lexicographic order of tuples, a proper prefix first. */
  function CompareTuples(a: seq<Scalar>, b: seq<Scalar>): (r: int)
    ensures r == -1 || r == 0 || r == 1
  {
    if a == [] then (if b == [] then 0 else -1)
    else if b == [] then 1
    else
      var c := CompareScalar(a[0], b[0]);
      if c != 0 then c else CompareTuples(a[1..], b[1..])
  }

  // ---------------------------------------------------------------- the comparison is a total preorder

  lemma CompareScalarFlips(a: Scalar, b: Scalar)
    ensures CompareScalar(b, a) == -CompareScalar(a, b)
  {
    if a.Str? && b.Str? {
      Lex.CompareFlips(Utf16(a.t), Utf16(b.t));
    }
  }

  /** Transitivity on every scalar, NaN and the two zeros included. */
  lemma CompareScalarTransitive(a: Scalar, b: Scalar, c: Scalar)
    requires CompareScalar(a, b) <= 0 && CompareScalar(b, c) <= 0
    ensures CompareScalar(a, c) <= 0
    ensures CompareScalar(a, b) < 0 || CompareScalar(b, c) < 0 ==> CompareScalar(a, c) < 0
  {
    if a.Str? && b.Str? && c.Str? {
      Lex.LessTransitive(Utf16(a.t), Utf16(b.t), Utf16(c.t));
    }
  }

  lemma {:induction false} CompareRowsFlips(a: Row, b: Row, order: seq<OrderKey>)
    ensures CompareRows(b, a, order) == -CompareRows(a, b, order)
  {
    if order == [] {
    } else {
      CompareScalarFlips(Get(a, order[0].column), Get(b, order[0].column));
      CompareRowsFlips(a, b, order[1..]);
    }
  }

  lemma {:induction false} CompareRowsTransitive(a: Row, b: Row, c: Row, order: seq<OrderKey>)
    requires CompareRows(a, b, order) <= 0 && CompareRows(b, c, order) <= 0
    ensures CompareRows(a, c, order) <= 0
    ensures CompareRows(a, b, order) < 0 || CompareRows(b, c, order) < 0 ==> CompareRows(a, c, order) < 0
  {
    if order == [] {
    } else {
      var x, y, z := Get(a, order[0].column), Get(b, order[0].column), Get(c, order[0].column);
      CompareScalarFlips(x, y);
      CompareScalarFlips(y, z);
      CompareScalarFlips(x, z);
      if order[0].desc {
        CompareScalarTransitive(z, y, x);
      } else {
        CompareScalarTransitive(x, y, z);
      }
      if CompareScalar(x, y) == 0 && CompareScalar(y, z) == 0 {
        CompareScalarTransitive(x, y, z);
        CompareScalarTransitive(z, y, x);
        CompareRowsTransitive(a, b, c, order[1..]);
      }
    }
  }

  /** Rows that compare equal agree, up to comparison, on every column of the order. */
  lemma {:induction false} CompareRowsEqual(a: Row, b: Row, order: seq<OrderKey>, i: nat)
    requires CompareRows(a, b, order) == 0
    requires i < |order|
    ensures CompareScalar(Get(a, order[i].column), Get(b, order[i].column)) == 0
  {
    if i == 0 {
    } else {
      CompareRowsEqual(a, b, order[1..], i - 1);
    }
  }

  /** Comparing rows in one direction is comparing their sort-key tuples, or the reverse of it. */
  lemma {:induction false} CompareRowsIsTuples(a: Row, b: Row, order: seq<OrderKey>, desc: bool)
    requires forall i :: 0 <= i < |order| ==> order[i].desc == desc
    ensures CompareRows(a, b, order) ==
            if desc then -CompareTuples(KeyOf(a, order), KeyOf(b, order))
            else CompareTuples(KeyOf(a, order), KeyOf(b, order))
  {
    if order == [] {
    } else {
      CompareRowsIsTuples(a, b, order[1..], desc);
      assert KeyOf(a, order)[1..] == KeyOf(a, order[1..]);
      assert KeyOf(b, order)[1..] == KeyOf(b, order[1..]);
    }
  }

  // ---------------------------------------------------------------- plain scalars

  /** No NaN and no -0: the scalars on which comparing equal, `===` and identity are one. */
  predicate Regular(v: Scalar) {
    v.Num? ==> !v.d.NaN() && !v.d.NegZero()
  }

  predicate RegularRow(row: Row) {
    forall c :: c in row ==> Regular(row[c])
  }

  /** Regular, and no character outside the Basic Multilingual Plane: the scalars on which
      comparison and byte encoding agree. */
  predicate Plain(v: Scalar) {
    Regular(v) && (v.Str? ==> forall i :: 0 <= i < |v.t| ==> v.t[i] < 0x10000)
  }

  predicate PlainTuple(k: seq<Scalar>) {
    forall i :: 0 <= i < |k| ==> Plain(k[i])
  }

  predicate RegularTuple(k: seq<Scalar>) {
    forall i :: 0 <= i < |k| ==> Regular(k[i])
  }

  lemma ScaledInjective(a: Double, b: Double)
    requires a.Scaled() == b.Scaled()
    ensures a == b || (a.Zero() && b.Zero())
  {
    if a.exp != b.exp || a.mant != b.mant {
      if a.exp < b.exp || (a.exp == b.exp && a.mant < b.mant) {
        MagnitudeOrder(a.exp, a.mant, b.exp, b.mant);
      } else {
        MagnitudeOrder(b.exp, b.mant, a.exp, a.mant);
      }
    }
    if a.exp == b.exp && a.mant == b.mant && !a.Zero() {
      assert Magnitude(a.exp, a.mant) > 0 by {
        MagnitudeOrder(0, 0, a.exp, a.mant);
      }
    }
  }

  /** Code points are read back from the first code units. */
  lemma {:induction false} Utf16Injective(t: Text, u: Text)
    requires Utf16(t) == Utf16(u)
    ensures t == u
  {
    if t == [] || u == [] {
    } else {
      var x, y := Units(t[0]), Units(u[0]);
      assert Utf16(t)[0] == x[0] && Utf16(u)[0] == y[0];
      if |x| == 2 && |y| == 2 {
        assert Utf16(t)[1] == x[1] && Utf16(u)[1] == y[1];
      }
      assert |x| == |y| && t[0] == u[0];
      assert Utf16(t)[|x|..] == Utf16(t[1..]) && Utf16(u)[|y|..] == Utf16(u[1..]);
      Utf16Injective(t[1..], u[1..]);
      assert t == [t[0]] + t[1..] && u == [u[0]] + u[1..];
    }
  }

  lemma RegularEqual(a: Scalar, b: Scalar)
    requires Regular(a) && Regular(b)
    ensures CompareScalar(a, b) == 0 <==> a == b
    ensures Same(a, b) <==> a == b
  {
    if a.Num? && b.Num? && a.d.Scaled() == b.d.Scaled() {
      ScaledInjective(a.d, b.d);
    }
    if a.Str? && b.Str? && Utf16(a.t) == Utf16(b.t) {
      Utf16Injective(a.t, b.t);
    }
  }
}
